/** The phase-2 metadata patchers (scripts/backfill-calibration-corpus-phase2-core.ts). A stored
    `metadata_json` either parses to an object, modelled as a map, or is left alone. */
module MetadataPatches {
  import opened Text

  datatype Value = Text(text: string) | Number(n: int) | Object(fields: map<string, Value>) | Other(raw: string)
  type Metadata = map<string, Value>
  datatype Stored = Parsed(fields: Metadata) | Unparseable(raw: string)

  const RETRO_SUCCESSOR_PROVENANCE := "github_successor_scan"
  const RETRO_SAME_PR_MERGED_PROVENANCE := "github_same_pr_merged"
  const RAW_CONTEXT_REFETCH_PROVENANCE := "github_raw_context_refetch"
  const REASON_CODE_ENRICHMENT_PROVENANCE := "review_targets_reason_code"

  predicate HasText(m: Metadata, key: string) {
    key in m && m[key].Text?
  }

  function Prefix(s: string, n: nat): string {
    if |s| <= n then s else s[..n]
  }

  function TrimLeft(s: string): string {
    if s != "" && IsSpace(s[0]) then TrimLeft(s[1..]) else s
  }

  function TrimRight(s: string): string {
    if s != "" && IsSpace(s[|s| - 1]) then TrimRight(s[..|s| - 1]) else s
  }

  function Trim(s: string): string {
    TrimRight(TrimLeft(s))
  }

  // ---------- the four patchers: None is "leave the row as it is" ----------

  function PatchFiredMetadataWithDiff(limit: nat, row: Stored, diff: string): Option<Metadata> {
    if row.Unparseable? || HasText(row.fields, "diff") then None
    else
      var bounded := Prefix(diff, limit);
      if bounded == "" then None
      else Some(row.fields["diff" := Text(bounded)]["rawContextProvenance" := Text(RAW_CONTEXT_REFETCH_PROVENANCE)])
  }

  function PatchFiredMetadataWithReasonCode(row: Stored, code: string): Option<Metadata> {
    if row.Unparseable? || HasText(row.fields, "reasonCode") then None
    else if Trim(code) == "" then None
    else
      var provenance := Text(REASON_CODE_ENRICHMENT_PROVENANCE);
      Some(row.fields["reasonCode" := Text(Trim(code))]["reasonCodeProvenance" := provenance])
  }

  predicate IsReversed(row: Stored) {
    row.Parsed? && "verdict" in row.fields && row.fields["verdict"] == Text("reversed")
  }

  function Reverse(m: Metadata, retro: Metadata): Metadata {
    m["verdict" := Text("reversed")]["retroLabel" := Object(retro)]
  }

  function PatchOverrideMetadataToReversed(row: Stored, supersededBy: int, heuristics: Value): Option<Metadata> {
    if row.Unparseable? || IsReversed(row) then None
    else Some(Reverse(row.fields,
      map["provenance" := Text(RETRO_SUCCESSOR_PROVENANCE),
          "supersededBy" := Number(supersededBy), "heuristics" := heuristics]))
  }

  function PatchOverrideMetadataToSamePrMerged(row: Stored, mergedAt: string): Option<Metadata> {
    if row.Unparseable? || IsReversed(row) then None
    else Some(Reverse(row.fields,
      map["provenance" := Text(RETRO_SAME_PR_MERGED_PROVENANCE), "mergedAt" := Text(mergedAt)]))
  }

  /** A null patch writes nothing. */
  function Apply(row: Stored, patch: Option<Metadata>): Stored {
    if patch.None? then row else Parsed(patch.value)
  }

  // ---------- fired rows: the diff and the reason code, in any order, any number of times ----------

  datatype FiredPatch = Diff(limit: nat, diff: string) | ReasonCode(code: string)

  function StepFired(row: Stored, p: FiredPatch): Stored {
    match p
    case Diff(limit, diff) => Apply(row, PatchFiredMetadataWithDiff(limit, row, diff))
    case ReasonCode(code) => Apply(row, PatchFiredMetadataWithReasonCode(row, code))
  }

  function RunFired(row: Stored, ps: seq<FiredPatch>): Stored {
    if ps == [] then row else StepFired(RunFired(row, ps[..|ps| - 1]), ps[|ps| - 1])
  }

  lemma {:induction false} KeysDiffer()
    ensures "diff" != "reasonCode" && "diff" != "reasonCodeProvenance" && "diff" != "rawContextProvenance"
    ensures "reasonCode" != "rawContextProvenance" && "reasonCode" != "reasonCodeProvenance"
    ensures "rawContextProvenance" != "reasonCodeProvenance"
  {
    assert |"diff"| == 4 && |"reasonCode"| == 10 && |"rawContextProvenance"| == 20 && |"reasonCodeProvenance"| == 20;
    assert "rawContextProvenance"[1] != "reasonCodeProvenance"[1];
  }

  lemma {:induction false} DiffPatchIsIdempotent(limit: nat, row: Stored, diff: string)
    ensures var once := StepFired(row, Diff(limit, diff)); StepFired(once, Diff(limit, diff)) == once
  {
    KeysDiffer();
  }

  lemma {:induction false} ReasonPatchIsIdempotent(row: Stored, code: string)
    ensures var once := StepFired(row, ReasonCode(code)); StepFired(once, ReasonCode(code)) == once
  {
    KeysDiffer();
  }

  lemma {:induction false} FiredPatchesCommute(row: Stored, limit: nat, diff: string, code: string)
    ensures StepFired(StepFired(row, Diff(limit, diff)), ReasonCode(code))
         == StepFired(StepFired(row, ReasonCode(code)), Diff(limit, diff))
  {
    KeysDiffer();
    if row.Parsed? {
      var m := row.fields;
      var d, dp := Text(Prefix(diff, limit)), Text(RAW_CONTEXT_REFETCH_PROVENANCE);
      var r, rp := Text(Trim(code)), Text(REASON_CODE_ENRICHMENT_PROVENANCE);
      assert m["diff" := d]["rawContextProvenance" := dp]["reasonCode" := r]["reasonCodeProvenance" := rp]
          == m["reasonCode" := r]["reasonCodeProvenance" := rp]["diff" := d]["rawContextProvenance" := dp];
    }
  }

  /** What a set of patches amounts to: the diff if it was among them, then the reason code if it was. */
  function Settled(row: Stored, diff: FiredPatch, code: FiredPatch, hasDiff: bool, hasCode: bool): Stored {
    var afterDiff := if hasDiff then StepFired(row, diff) else row;
    if hasCode then StepFired(afterDiff, code) else afterDiff
  }

  lemma {:induction false} SettledStep(row: Stored, diff: FiredPatch, code: FiredPatch, hasDiff: bool, hasCode: bool,
          p: FiredPatch)
    requires diff.Diff? && code.ReasonCode? && (p == diff || p == code)
    ensures StepFired(Settled(row, diff, code, hasDiff, hasCode), p)
         == Settled(row, diff, code, hasDiff || p == diff, hasCode || p == code)
  {
    FiredPatchesCommute(row, diff.limit, diff.diff, code.code);
    if p == diff {
      DiffPatchIsIdempotent(diff.limit, row, diff.diff);
      DiffPatchIsIdempotent(diff.limit, StepFired(row, code), diff.diff);
    } else {
      ReasonPatchIsIdempotent(row, code.code);
      ReasonPatchIsIdempotent(StepFired(row, diff), code.code);
    }
  }

  /** Any sequence of the two patchers, repeats included, ends where the set of them ends. */
  lemma {:induction false} PatchesAreConfluent(row: Stored, ps: seq<FiredPatch>, diff: FiredPatch, code: FiredPatch)
    requires diff.Diff? && code.ReasonCode?
    requires forall p :: p in ps ==> p == diff || p == code
    ensures RunFired(row, ps) == Settled(row, diff, code, diff in ps, code in ps)
  {
    if ps != [] {
      var n := |ps| - 1;
      forall p ensures p in ps <==> p in ps[..n] || p == ps[n] { assert ps == ps[..n] + [ps[n]]; }
      PatchesAreConfluent(row, ps[..n], diff, code);
      assert ps[n] in ps;
      SettledStep(row, diff, code, diff in ps[..n], code in ps[..n], ps[n]);
    }
  }

  /** Two campaigns made of the same patches leave the same metadata. */
  lemma {:induction false} SamePatchesSameMetadata(row: Stored, ps: seq<FiredPatch>, qs: seq<FiredPatch>,
          diff: FiredPatch, code: FiredPatch)
    requires diff.Diff? && code.ReasonCode?
    requires forall p :: p in ps ==> p == diff || p == code
    requires forall p :: p in ps <==> p in qs
    ensures RunFired(row, ps) == RunFired(row, qs)
  {
    PatchesAreConfluent(row, ps, diff, code);
    PatchesAreConfluent(row, qs, diff, code);
  }

  const PATCHED_KEYS: set<string> := {"diff", "rawContextProvenance", "reasonCode", "reasonCodeProvenance"}

  /** No key outside the four is altered, added or removed; text already captured is never replaced. */
  lemma {:induction false} FiredPatchesAreFramed(row: Stored, ps: seq<FiredPatch>)
    ensures row.Unparseable? ==> RunFired(row, ps) == row
    ensures row.Parsed? ==>
      var after := RunFired(row, ps);
      && after.Parsed?
      && (forall k :: k !in PATCHED_KEYS ==> (k in after.fields <==> k in row.fields))
      && (forall k :: k !in PATCHED_KEYS && k in row.fields ==> after.fields[k] == row.fields[k])
      && (forall k :: k in {"diff", "reasonCode"} && HasText(row.fields, k) ==>
            k in after.fields && after.fields[k] == row.fields[k])
  {
    KeysDiffer();
    if ps != [] { FiredPatchesAreFramed(row, ps[..|ps| - 1]); }
  }

  // ---------- what the patches leave behind ----------

  /** The value under a key, or None. */
  ghost function At(m: Metadata, key: string): Option<Value> {
    if key in m then Some(m[key]) else None
  }

  /** Blanks are cut at both ends and nowhere else. */
  ghost predicate IsTrimOf(s: string, t: string) {
    && (t == "" || (!IsSpace(t[0]) && !IsSpace(t[|t| - 1])))
    && exists i, j :: CutsTo(s, i, j, t)
  }

  ghost predicate CutsTo(s: string, i: int, j: int, t: string) {
    && 0 <= i <= j <= |s| && t == s[i..j]
    && (forall k :: 0 <= k < i ==> IsSpace(s[k])) && (forall k :: j <= k < |s| ==> IsSpace(s[k]))
  }

  lemma {:induction false} TrimLeftCuts(s: string) returns (i: nat)
    ensures i <= |s| && TrimLeft(s) == s[i..] && (forall k :: 0 <= k < i ==> IsSpace(s[k]))
    ensures i < |s| ==> !IsSpace(s[i])
  {
    i := 0;
    if s != "" && IsSpace(s[0]) {
      var n := TrimLeftCuts(s[1..]);
      forall k | 0 < k < n + 1 ensures IsSpace(s[k]) { assert s[1..][k - 1] == s[k]; }
      i := n + 1;
    }
  }

  lemma {:induction false} TrimRightCuts(s: string) returns (j: nat)
    ensures j <= |s| && TrimRight(s) == s[..j] && (forall k :: j <= k < |s| ==> IsSpace(s[k]))
    ensures j > 0 ==> !IsSpace(s[j - 1])
  {
    j := |s|;
    if s != "" && IsSpace(s[|s| - 1]) { j := TrimRightCuts(s[..|s| - 1]); }
  }

  lemma {:induction false} TrimIsTrimmed(s: string)
    ensures IsTrimOf(s, Trim(s))
  {
    var i := TrimLeftCuts(s);
    var n := TrimRightCuts(s[i..]);
    var j := i + n;
    assert Trim(s) == s[i..j];
    forall k | j <= k < |s| ensures IsSpace(s[k]) { assert s[i..][k - i] == s[k]; }
    assert CutsTo(s, i, j, Trim(s));
  }

  ghost predicate DiffIsDue(row: Metadata, limit: nat, diff: string) {
    !(At(row, "diff").Some? && At(row, "diff").value.Text?) && limit > 0 && diff != ""
  }

  /** One diff patch: the first `limit` characters, with their provenance, unless a diff is held or none is given. */
  lemma {:induction false} DiffPatchShows(row: Metadata, limit: nat, diff: string)
    ensures var after := StepFired(Parsed(row), Diff(limit, diff));
      if DiffIsDue(row, limit, diff) then
        after == Parsed(row["diff" := Text(if |diff| <= limit then diff else diff[..limit])]
                           ["rawContextProvenance" := Text("github_raw_context_refetch")])
      else after == Parsed(row)
  {
  }

  ghost predicate CodeIsDue(row: Metadata, code: string) {
    && !(At(row, "reasonCode").Some? && At(row, "reasonCode").value.Text?)
    && exists k :: 0 <= k < |code| && !IsSpace(code[k])
  }

  /** One reason-code patch: the trimmed code, with its provenance, unless a code is held or this one is blank. */
  lemma {:induction false} ReasonPatchShows(row: Metadata, code: string)
    ensures IsTrimOf(code, Trim(code))
    ensures var after := StepFired(Parsed(row), ReasonCode(code));
      if CodeIsDue(row, code) then
        after == Parsed(row["reasonCode" := Text(Trim(code))]
                           ["reasonCodeProvenance" := Text("review_targets_reason_code")])
      else after == Parsed(row)
  {
    TrimIsTrimmed(code);
    var i, j :| CutsTo(code, i, j, Trim(code));
    if i < j { assert Trim(code)[0] == code[i]; }
  }

  /** What any sequence of the two patches, repeats included, leaves in a parsed row, key by key. */
  lemma {:induction false} FiredPatchesShow(row: Metadata, ps: seq<FiredPatch>, diff: FiredPatch, code: FiredPatch)
    requires diff.Diff? && code.ReasonCode?
    requires forall p :: p in ps ==> p == diff || p == code
    ensures RunFired(Parsed(row), ps).Parsed?
    ensures var after := RunFired(Parsed(row), ps).fields;
      if diff in ps && DiffIsDue(row, diff.limit, diff.diff) then
        && At(after, "diff") == Some(Text(if |diff.diff| <= diff.limit then diff.diff else diff.diff[..diff.limit]))
        && At(after, "rawContextProvenance") == Some(Text("github_raw_context_refetch"))
      else At(after, "diff") == At(row, "diff") && At(after, "rawContextProvenance") == At(row, "rawContextProvenance")
    ensures var after := RunFired(Parsed(row), ps).fields;
      if code in ps && CodeIsDue(row, code.code) then
        && At(after, "reasonCode") == Some(Text(Trim(code.code)))
        && At(after, "reasonCodeProvenance") == Some(Text("review_targets_reason_code"))
      else
        && At(after, "reasonCode") == At(row, "reasonCode")
        && At(after, "reasonCodeProvenance") == At(row, "reasonCodeProvenance")
  {
    KeysDiffer();
    PatchesAreConfluent(Parsed(row), ps, diff, code);
    DiffPatchShows(row, diff.limit, diff.diff);
    var between := if diff in ps then StepFired(Parsed(row), diff).fields else row;
    assert At(between, "reasonCode") == At(row, "reasonCode");
    ReasonPatchShows(between, code.code);
  }

  // ---------- override rows: reversed is absorbing ----------

  datatype OverridePatch = Superseded(number: int, heuristics: Value) | SamePrMerged(mergedAt: string)

  function StepOverride(row: Stored, p: OverridePatch): Stored {
    match p
    case Superseded(number, heuristics) => Apply(row, PatchOverrideMetadataToReversed(row, number, heuristics))
    case SamePrMerged(mergedAt) => Apply(row, PatchOverrideMetadataToSamePrMerged(row, mergedAt))
  }

  function RunOverride(row: Stored, ps: seq<OverridePatch>): Stored {
    if ps == [] then row else StepOverride(RunOverride(row, ps[..|ps| - 1]), ps[|ps| - 1])
  }

  /** The first retro label recorded is final: later patches of either kind change nothing at all. */
  lemma {:induction false} FirstRetroLabelIsFinal(row: Stored, ps: seq<OverridePatch>)
    requires ps != []
    ensures RunOverride(row, ps) == StepOverride(row, ps[0])
    ensures row.Parsed? ==> IsReversed(RunOverride(row, ps))
    ensures IsReversed(row) || row.Unparseable? ==> RunOverride(row, ps) == row
    ensures row.Parsed? ==> forall k :: k !in {"verdict", "retroLabel"} ==>
      && (k in RunOverride(row, ps).fields <==> k in row.fields)
      && (k in row.fields ==> RunOverride(row, ps).fields[k] == row.fields[k])
  {
    assert "verdict" != "retroLabel" by { assert "verdict"[0] != "retroLabel"[0]; }
    if |ps| > 1 {
      FirstRetroLabelIsFinal(row, ps[..|ps| - 1]);
    } else {
      assert RunOverride(row, ps[..0]) == row;
    }
  }

  /** What the first patch records: the verdict, and what it was reversed by. */
  lemma {:induction false} FirstRetroLabelShows(row: Metadata, ps: seq<OverridePatch>)
    requires ps != [] && At(row, "verdict") != Some(Text("reversed"))
    ensures RunOverride(Parsed(row), ps).Parsed?
    ensures var after := RunOverride(Parsed(row), ps).fields;
      && At(after, "verdict") == Some(Text("reversed"))
      && At(after, "retroLabel") == Some(Object(
        match ps[0]
        case Superseded(number, heuristics) =>
          map["provenance" := Text("github_successor_scan"), "supersededBy" := Number(number),
              "heuristics" := heuristics]
        case SamePrMerged(mergedAt) =>
          map["provenance" := Text("github_same_pr_merged"), "mergedAt" := Text(mergedAt)]))
  {
    FirstRetroLabelIsFinal(Parsed(row), ps);
    assert "verdict" != "retroLabel" by { assert "verdict"[0] != "retroLabel"[0]; }
  }
}
