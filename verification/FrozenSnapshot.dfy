/** The frozen-repo snapshot builder (scripts/frozen-repo-snapshot-core.ts): a repository as a maintainer
    saw it at instant T. `parse` stands for `Date.parse` (None when the result is not finite), `text` for
    `JSON.stringify` and `sha` for SHA-256 in hexadecimal. */
module FrozenSnapshot {
  import opened Text
  import opened Sorting
  import opened Sequences

  type Clock = string -> Option<int>

  datatype Kind = PullRequest | Issue
  datatype Label = Label(name: string, appliedAt: string)
  datatype WorkUnit = WorkUnit(id: string, number: int, kind: Kind, title: string, body: string,
    author: string, createdAt: string, closedAt: Option<string>, labels: seq<Label>, changedPaths: seq<string>)
  datatype Decision = Decision(id: string, action: string, reasonCode: string, decidedAt: string)
  datatype Input = Input(repo: string, commit: string, frozenAt: string, units: seq<WorkUnit>, decisions: seq<Decision>)

  datatype FrozenUnit = FrozenUnit(id: string, number: int, kind: Kind, title: string, body: string,
    author: string, createdAt: string, labels: seq<string>, changedPaths: seq<string>)
  datatype Body = Body(repo: string, commit: string, frozenAt: string,
    pulls: seq<FrozenUnit>, issues: seq<FrozenUnit>, decisions: seq<Decision>)
  datatype Snapshot = Snapshot(body: Body, checksum: string)

  // ---------- visibility at T ----------

  predicate AtOrBefore(parse: Clock, stamp: string, t: string) {
    stamp != "" && parse(stamp).Some? && parse(t).Some? && parse(stamp).value <= parse(t).value
  }

  /** Never closed, closed at an unreadable time, or closed strictly after T. */
  predicate NotClosedBy(parse: Clock, closedAt: Option<string>, t: string) {
    || closedAt.None? || closedAt.value == ""
    || parse(closedAt.value).None?
    || (parse(t).Some? && parse(closedAt.value).value > parse(t).value)
  }

  predicate WasOpenAt(parse: Clock, unit: WorkUnit, t: string) {
    AtOrBefore(parse, unit.createdAt, t) && NotClosedBy(parse, unit.closedAt, t)
  }

  function VisibleLabel(parse: Clock, t: string): Label -> bool { (l: Label) => AtOrBefore(parse, l.appliedAt, t) }
  function HiddenLabel(parse: Clock, t: string): Label -> bool { (l: Label) => !AtOrBefore(parse, l.appliedAt, t) }
  function LabelName(): Label -> string { (l: Label) => l.name }
  function NonEmpty(): string -> bool { (s: string) => s != "" }
  function StringOrder(): (string, string) -> bool { (a, b) => AtMost(a, b) }

  /** `[...new Set(xs)].sort()`. */
  function SortedSet(xs: seq<string>): seq<string> {
    Sort(StringOrder(), Distinct(xs))
  }

  function LabelsAt(parse: Clock, labels: seq<Label>, t: string): seq<string> {
    SortedSet(Filter(NonEmpty(), Map(LabelName(), Filter(VisibleLabel(parse, t), labels))))
  }

  function FreezeWorkUnit(parse: Clock, u: WorkUnit, t: string): FrozenUnit {
    FrozenUnit(u.id, u.number, u.kind, u.title, u.body, u.author, u.createdAt,
               LabelsAt(parse, u.labels, t), SortedSet(u.changedPaths))
  }

  // ---------- canonical JSON and the checksum ----------

  datatype Json = Str(s: string) | Num(n: int) | Arr(items: seq<Json>) | Obj(entries: seq<(string, Json)>)

  function KeyOrder(): ((string, Json), (string, Json)) -> bool {
    (a: (string, Json), b: (string, Json)) => AtMost(a.0, b.0)
  }

  /** `canonicalize`: the same entries, keys in order. */
  function Canonicalize(entries: seq<(string, Json)>): Json {
    Obj(Sort(KeyOrder(), entries))
  }

  /** An object literal: the given keys with the given values. */
  function Record(keys: seq<string>, values: seq<Json>): seq<(string, Json)>
    requires |keys| == |values|
  {
    seq(|keys|, i requires 0 <= i < |keys| => (keys[i], values[i]))
  }

  const DECISION_KEYS: seq<string> := ["workUnitId", "action", "reasonCode", "decidedAt"]
  const UNIT_KEYS: seq<string> :=
    ["workUnitId", "number", "kind", "title", "body", "authorLogin", "createdAt", "labels", "changedPaths"]
  const BODY_KEYS: seq<string> :=
    ["schemaVersion", "repoFullName", "commitSha", "frozenAt", "openPullRequests", "openIssues", "recentDecisions"]

  function DecisionValues(d: Decision): seq<Json> {
    [Str(d.id), Str(d.action), Str(d.reasonCode), Str(d.decidedAt)]
  }

  function KindName(k: Kind): string {
    match k case PullRequest => "pull_request" case Issue => "issue"
  }

  function Strings(xs: seq<string>): Json {
    Arr(Map((s: string) => Str(s), xs))
  }

  function UnitValues(u: FrozenUnit): seq<Json> {
    [Str(u.id), Num(u.number), Str(KindName(u.kind)), Str(u.title), Str(u.body), Str(u.author), Str(u.createdAt),
     Strings(u.labels), Strings(u.changedPaths)]
  }

  function DecisionJson(): Decision -> Json { (d: Decision) => Canonicalize(Record(DECISION_KEYS, DecisionValues(d))) }
  function UnitJson(): FrozenUnit -> Json { (u: FrozenUnit) => Canonicalize(Record(UNIT_KEYS, UnitValues(u))) }

  const SCHEMA_VERSION := 1

  function BodyValues(b: Body): seq<Json> {
    [Num(SCHEMA_VERSION), Str(b.repo), Str(b.commit), Str(b.frozenAt),
     Arr(Map(UnitJson(), b.pulls)), Arr(Map(UnitJson(), b.issues)), Arr(Map(DecisionJson(), b.decisions))]
  }

  function BodyJson(b: Body): Json {
    Canonicalize(Record(BODY_KEYS, BodyValues(b)))
  }

  function ChecksumSnapshot(text: Json -> string, sha: string -> string, b: Body): string {
    sha(text(BodyJson(b)))
  }

  predicate VerifySnapshotChecksum(text: Json -> string, sha: string -> string, s: Snapshot) {
    ChecksumSnapshot(text, sha, s.body) == s.checksum
  }

  // ---------- comparators ----------

  function CompareStrings(a: string, b: string): int {
    if Less(a, b) then -1 else if Less(b, a) then 1 else 0
  }

  function CompareDecisions(text: Json -> string, a: Decision, b: Decision): int {
    var byId := CompareStrings(a.id, b.id);
    var byTime := CompareStrings(a.decidedAt, b.decidedAt);
    var byAction := CompareStrings(a.action, b.action);
    if byId != 0 then byId else if byTime != 0 then byTime else if byAction != 0 then byAction
    else CompareStrings(text(DecisionJson()(a)), text(DecisionJson()(b)))
  }

  function UnitOrder(): (FrozenUnit, FrozenUnit) -> bool {
    (a: FrozenUnit, b: FrozenUnit) => CompareStrings(a.id, b.id) <= 0
  }

  function DecisionOrder(text: Json -> string): (Decision, Decision) -> bool {
    (a: Decision, b: Decision) => CompareDecisions(text, a, b) <= 0
  }

  // ---------- the builder ----------

  function OpenAs(parse: Clock, kind: Kind, t: string): WorkUnit -> bool {
    (u: WorkUnit) => WasOpenAt(parse, u, t) && u.kind == kind
  }

  function Freeze(parse: Clock, t: string): WorkUnit -> FrozenUnit { (u: WorkUnit) => FreezeWorkUnit(parse, u, t) }
  function VisibleDecision(parse: Clock, t: string): Decision -> bool {
    (d: Decision) => AtOrBefore(parse, d.decidedAt, t)
  }

  function HiddenDecision(parse: Clock, t: string): Decision -> bool {
    (d: Decision) => !AtOrBefore(parse, d.decidedAt, t)
  }

  function FrozenUnits(parse: Clock, units: seq<WorkUnit>, kind: Kind, t: string): seq<FrozenUnit> {
    Sort(UnitOrder(), Map(Freeze(parse, t), Filter(OpenAs(parse, kind, t), units)))
  }

  function BuildBody(parse: Clock, text: Json -> string, input: Input): Body {
    Body(input.repo, input.commit, input.frozenAt,
         FrozenUnits(parse, input.units, PullRequest, input.frozenAt),
         FrozenUnits(parse, input.units, Issue, input.frozenAt),
         Sort(DecisionOrder(text), Filter(VisibleDecision(parse, input.frozenAt), input.decisions)))
  }

  function BuildFrozenRepoSnapshot(parse: Clock, text: Json -> string, sha: string -> string, input: Input): Snapshot {
    var body := BuildBody(parse, text, input);
    Snapshot(body, ChecksumSnapshot(text, sha, body))
  }

  // ---------- the orders are total ----------

  lemma {:induction false} CompareStringsIsOrder(a: string, b: string)
    ensures CompareStrings(a, b) == -CompareStrings(b, a)
    ensures CompareStrings(a, b) == 0 <==> a == b
    ensures CompareStrings(a, b) <= 0 <==> AtMost(a, b)
  {
    LessConnected(a, b);
    LessIrreflexive(a);
    if Less(a, b) { LessAsymmetric(a, b); }
    if Less(b, a) { LessAsymmetric(b, a); }
  }

  lemma {:induction false} StringOrderIsPreorder()
    ensures TotalPreorder(StringOrder())
    ensures forall a, b :: StringOrder()(a, b) && StringOrder()(b, a) ==> a == b
  {
    StringOrderIsTotal();
  }

  lemma {:induction false} UnitOrderIsPreorder()
    ensures TotalPreorder(UnitOrder())
    ensures forall a, b :: UnitOrder()(a, b) && UnitOrder()(b, a) <==> a.id == b.id
  {
    StringOrderIsTotal();
    forall a: FrozenUnit, b: FrozenUnit ensures UnitOrder()(a, b) <==> AtMost(a.id, b.id) {
      CompareStringsIsOrder(a.id, b.id);
    }
    forall a: FrozenUnit, b: FrozenUnit ensures UnitOrder()(a, b) && UnitOrder()(b, a) <==> a.id == b.id {
      LessIrreflexive(a.id);
    }
  }

  ghost predicate Injective<X(!new), Y>(f: X -> Y) {
    forall x, y :: f(x) == f(y) ==> x == y
  }

  ghost predicate DistinctKeys(keys: seq<string>) {
    forall i, j :: 0 <= i < j < |keys| ==> keys[i] != keys[j]
  }

  /** Sorting the keys loses nothing: canonical objects over the same distinct keys have the same values. */
  lemma {:induction false} CanonicalRecordInjective(keys: seq<string>, vs: seq<Json>, ws: seq<Json>)
    requires |keys| == |vs| == |ws| && DistinctKeys(keys)
    requires Canonicalize(Record(keys, vs)) == Canonicalize(Record(keys, ws))
    ensures vs == ws
  {
    var rv, rw := Record(keys, vs), Record(keys, ws);
    SameElements(rv, rw);
    forall i | 0 <= i < |vs| ensures vs[i] == ws[i] {
      assert rv[i] in rw;
      var j :| 0 <= j < |rw| && rw[j] == rv[i];
      assert rw[j].0 == keys[j] && rv[i].0 == keys[i];
      assert i == j;
    }
  }

  /** Told apart by first letter, else by length. */
  lemma {:induction false} KeysAreDistinct()
    ensures DistinctKeys(DECISION_KEYS) && DistinctKeys(UNIT_KEYS) && DistinctKeys(BODY_KEYS)
  {
    var d := DECISION_KEYS;
    assert d[0][0] == 'w' && d[1][0] == 'a' && d[2][0] == 'r' && d[3][0] == 'd';
    var u := UNIT_KEYS;
    assert u[0][0] == 'w' && u[1][0] == 'n' && u[2][0] == 'k' && u[3][0] == 't' && u[4][0] == 'b';
    assert u[5][0] == 'a' && u[6][0] == 'c' && u[7][0] == 'l' && u[8][0] == 'c' && |u[6]| != |u[8]|;
    var b := BODY_KEYS;
    assert b[0][0] == 's' && b[1][0] == 'r' && b[2][0] == 'c' && b[3][0] == 'f';
    assert b[4][0] == 'o' && b[5][0] == 'o' && b[6][0] == 'r' && |b[4]| != |b[5]| && |b[1]| != |b[6]|;
  }

  lemma {:induction false} DecisionJsonInjective(a: Decision, b: Decision)
    requires DecisionJson()(a) == DecisionJson()(b)
    ensures a == b
  {
    KeysAreDistinct();
    CanonicalRecordInjective(DECISION_KEYS, DecisionValues(a), DecisionValues(b));
    assert DecisionValues(a)[0] == DecisionValues(b)[0] && DecisionValues(a)[1] == DecisionValues(b)[1];
    assert DecisionValues(a)[2] == DecisionValues(b)[2] && DecisionValues(a)[3] == DecisionValues(b)[3];
  }

  lemma {:induction false} CompareDecisionsTransitive(text: Json -> string, a: Decision, b: Decision, c: Decision)
    requires CompareDecisions(text, a, b) <= 0 && CompareDecisions(text, b, c) <= 0
    ensures CompareDecisions(text, a, c) <= 0
  {
    ChainStrings(a.id, b.id, c.id);
    ChainStrings(a.decidedAt, b.decidedAt, c.decidedAt);
    ChainStrings(a.action, b.action, c.action);
    ChainStrings(text(DecisionJson()(a)), text(DecisionJson()(b)), text(DecisionJson()(c)));
  }

  lemma {:induction false} ChainStrings(a: string, b: string, c: string)
    ensures CompareStrings(a, b) < 0 && CompareStrings(b, c) <= 0 ==> CompareStrings(a, c) < 0
    ensures CompareStrings(a, b) <= 0 && CompareStrings(b, c) < 0 ==> CompareStrings(a, c) < 0
    ensures CompareStrings(a, b) == 0 && CompareStrings(b, c) == 0 ==> CompareStrings(a, c) == 0
  {
    CompareStringsIsOrder(a, b);
    CompareStringsIsOrder(b, c);
    if Less(a, b) && Less(b, c) { LessTransitive(a, b, c); }
  }

  lemma {:induction false} DecisionOrderIsPreorder(text: Json -> string)
    ensures TotalPreorder(DecisionOrder(text))
    ensures forall a, b :: CompareDecisions(text, a, b) == -CompareDecisions(text, b, a)
  {
    forall a, b ensures CompareDecisions(text, a, b) == -CompareDecisions(text, b, a) {
      CompareStringsIsOrder(a.id, b.id);
      CompareStringsIsOrder(a.decidedAt, b.decidedAt);
      CompareStringsIsOrder(a.action, b.action);
      CompareStringsIsOrder(text(DecisionJson()(a)), text(DecisionJson()(b)));
    }
    forall a, b, c | DecisionOrder(text)(a, b) && DecisionOrder(text)(b, c) ensures DecisionOrder(text)(a, c) {
      CompareDecisionsTransitive(text, a, b, c);
    }
  }

  /** The decision comparator is a total order whose ties are only between equal decisions. */
  lemma {:induction false} DecisionOrderIsTotal(text: Json -> string)
    requires Injective(text)
    ensures TotalPreorder(DecisionOrder(text))
    ensures forall a, b :: CompareDecisions(text, a, b) == -CompareDecisions(text, b, a)
    ensures forall a, b :: CompareDecisions(text, a, b) == 0 <==> a == b
  {
    DecisionOrderIsPreorder(text);
    forall a, b ensures CompareDecisions(text, a, b) == 0 <==> a == b {
      var ja, jb := DecisionJson()(a), DecisionJson()(b);
      CompareStringsIsOrder(a.id, b.id);
      CompareStringsIsOrder(a.decidedAt, b.decidedAt);
      CompareStringsIsOrder(a.action, b.action);
      CompareStringsIsOrder(text(ja), text(jb));
      if ja == jb { DecisionJsonInjective(a, b); }
    }
  }

  // ---------- what a snapshot contains ----------

  /** A readable timestamp, not after T. */
  ghost predicate IsBy(parse: Clock, stamp: string, t: string) {
    stamp != "" && match (parse(stamp), parse(t)) case (Some(at), Some(cutoff)) => at <= cutoff case _ => false
  }

  /** Created by T, and not known to be closed by T. */
  ghost predicate IsOpenAt(parse: Clock, u: WorkUnit, t: string) {
    && IsBy(parse, u.createdAt, t)
    && !(u.closedAt.Some? && IsBy(parse, u.closedAt.value, t))
  }

  ghost predicate SortedWithoutRepeats(xs: seq<string>) {
    forall i, j :: 0 <= i < j < |xs| ==> Less(xs[i], xs[j])
  }

  /** `f` shows `u` as it was at T: its own fields, the names of the labels it had by then, and its paths. */
  ghost predicate Shows(parse: Clock, t: string, u: WorkUnit, f: FrozenUnit) {
    && f.id == u.id && f.number == u.number && f.kind == u.kind && f.title == u.title && f.body == u.body
    && f.author == u.author && f.createdAt == u.createdAt
    && SortedWithoutRepeats(f.labels) && SortedWithoutRepeats(f.changedPaths)
    && (forall name :: name in f.labels <==>
          name != "" && exists l :: l in u.labels && l.name == name && IsBy(parse, l.appliedAt, t))
    && (forall path :: path in f.changedPaths <==> path in u.changedPaths)
  }

  lemma {:induction false} SortedSetIsSorted(xs: seq<string>)
    ensures SortedWithoutRepeats(SortedSet(xs))
    ensures forall x :: x in SortedSet(xs) <==> x in xs
  {
    var r, d := SortedSet(xs), Distinct(xs);
    StringOrderIsPreorder();
    SortSorts(StringOrder(), d);
    SameElements(d, r);
    forall i, j | 0 <= i < j < |r| ensures Less(r[i], r[j]) {
      assert StringOrder()(r[i], r[j]);
      NoRepeats(xs, r, i, j);
      LessConnected(r[i], r[j]);
    }
  }

  lemma {:induction false} NoRepeats(xs: seq<string>, r: seq<string>, i: nat, j: nat)
    requires multiset(r) == multiset(Elements(xs)) && i < j < |r|
    ensures r[i] != r[j]
  {
    if r[i] == r[j] { CountTwice(r, i, j); }
  }

  lemma {:induction false} CountTwice(r: seq<string>, i: nat, j: nat)
    requires i < j < |r| && r[i] == r[j]
    ensures multiset(r)[r[i]] >= 2
  {
    assert r == r[..j] + [r[j]] + r[j + 1..];
    assert r[i] in r[..j];
  }

  lemma {:induction false} FrozenUnitShows(parse: Clock, t: string, u: WorkUnit)
    ensures Shows(parse, t, u, FreezeWorkUnit(parse, u, t))
  {
    var visible := Filter(VisibleLabel(parse, t), u.labels);
    var names := Filter(NonEmpty(), Map(LabelName(), visible));
    SortedSetIsSorted(names);
    SortedSetIsSorted(u.changedPaths);
    forall name ensures name in names <==>
      name != "" && exists l :: l in u.labels && l.name == name && IsBy(parse, l.appliedAt, t)
    {
      NameIsShown(parse, t, u.labels, name);
    }
  }

  lemma {:induction false} NameIsShown(parse: Clock, t: string, labels: seq<Label>, name: string)
    ensures name in Filter(NonEmpty(), Map(LabelName(), Filter(VisibleLabel(parse, t), labels))) <==>
      name != "" && exists l :: l in labels && l.name == name && IsBy(parse, l.appliedAt, t)
  {
    var visible := Filter(VisibleLabel(parse, t), labels);
    if name in Map(LabelName(), visible) {
      var i := MapOrigin(LabelName(), visible, name);
      assert visible[i] in labels && IsBy(parse, visible[i].appliedAt, t);
    }
    if l :| l in labels && l.name == name && IsBy(parse, l.appliedAt, t) {
      assert l in visible;
      var i :| 0 <= i < |visible| && visible[i] == l;
      assert Map(LabelName(), visible)[i] == name;
    }
  }

  /** The list of one kind: its units are the open units of that kind, one to one, by id. */
  ghost predicate ListShows(parse: Clock, t: string, units: seq<WorkUnit>, kind: Kind, list: seq<FrozenUnit>,
          origin: seq<nat>)
  {
    && |origin| == |list|
    && (forall j :: 0 <= j < |list| ==> origin[j] < |units| && Shows(parse, t, units[origin[j]], list[j]))
    && (forall i, j :: 0 <= i < j < |list| ==> origin[i] != origin[j] && AtMost(list[i].id, list[j].id))
    && (forall i :: 0 <= i < |units| ==> (i in origin <==> units[i].kind == kind && IsOpenAt(parse, units[i], t)))
  }

  lemma {:induction false} FrozenUnitsShow(parse: Clock, units: seq<WorkUnit>, kind: Kind, t: string)
    returns (origin: seq<nat>)
    ensures ListShows(parse, t, units, kind, FrozenUnits(parse, units, kind, t), origin)
  {
    var open, freeze, list := OpenAs(parse, kind, t), Freeze(parse, t), FrozenUnits(parse, units, kind, t);
    origin := RearrangedImages(open, freeze, units, list);
    ImagesShow(parse, t, units, kind, list, origin);
    UnitOrderIsPreorder();
    SortSorts(UnitOrder(), Map(freeze, Filter(open, units)));
    SortedById(list);
  }

  lemma {:induction false} ImagesShow(parse: Clock, t: string, units: seq<WorkUnit>, kind: Kind, list: seq<FrozenUnit>,
          origin: seq<nat>)
    requires ImagesOf(OpenAs(parse, kind, t), Freeze(parse, t), units, list, origin)
    ensures forall j :: 0 <= j < |list| ==> origin[j] < |units| && Shows(parse, t, units[origin[j]], list[j])
    ensures forall i :: 0 <= i < |units| ==> (i in origin <==> units[i].kind == kind && IsOpenAt(parse, units[i], t))
  {
    forall j | 0 <= j < |list| ensures origin[j] < |units| && Shows(parse, t, units[origin[j]], list[j]) {
      FrozenUnitShows(parse, t, units[origin[j]]);
    }
    forall i | 0 <= i < |units|
      ensures OpenAs(parse, kind, t)(units[i]) <==> units[i].kind == kind && IsOpenAt(parse, units[i], t)
    {
      OpenIsOpen(parse, units[i], t);
    }
  }

  lemma {:induction false} OpenIsOpen(parse: Clock, u: WorkUnit, t: string)
    ensures WasOpenAt(parse, u, t) <==> IsOpenAt(parse, u, t)
  {
  }

  lemma {:induction false} SortedById(list: seq<FrozenUnit>)
    requires Sorted(UnitOrder(), list)
    ensures forall i, j :: 0 <= i < j < |list| ==> AtMost(list[i].id, list[j].id)
  {
    forall i, j | 0 <= i < j < |list| ensures AtMost(list[i].id, list[j].id) {
      assert UnitOrder()(list[i], list[j]);
      CompareStringsIsOrder(list[i].id, list[j].id);
    }
  }

  /** Decisions in the order of the snapshot: by unit, time and action. */
  ghost predicate InDecisionOrder(a: Decision, b: Decision) {
    || Less(a.id, b.id)
    || (a.id == b.id && (Less(a.decidedAt, b.decidedAt) || (a.decidedAt == b.decidedAt && AtMost(a.action, b.action))))
  }

  /** The decisions made by T, one to one, in order. */
  ghost predicate DecisionsShow(parse: Clock, t: string, given: seq<Decision>, list: seq<Decision>, origin: seq<nat>) {
    && TakenFrom(given, origin, list)
    && (forall i :: 0 <= i < |given| ==> (i in origin <==> IsBy(parse, given[i].decidedAt, t)))
    && (forall i, j :: 0 <= i < j < |list| ==> InDecisionOrder(list[i], list[j]))
  }

  lemma {:induction false} ComparedInOrder(text: Json -> string, a: Decision, b: Decision)
    requires CompareDecisions(text, a, b) <= 0
    ensures InDecisionOrder(a, b)
  {
    CompareStringsIsOrder(a.id, b.id);
    CompareStringsIsOrder(a.decidedAt, b.decidedAt);
    CompareStringsIsOrder(a.action, b.action);
    LessConnected(a.id, b.id);
    LessConnected(a.decidedAt, b.decidedAt);
  }

  lemma {:induction false} BuiltDecisionsShow(parse: Clock, text: Json -> string, given: seq<Decision>, t: string)
    returns (origin: seq<nat>)
    ensures DecisionsShow(parse, t, given, Sort(DecisionOrder(text), Filter(VisibleDecision(parse, t), given)), origin)
  {
    var visible, same := VisibleDecision(parse, t), (d: Decision) => d;
    var list := Sort(DecisionOrder(text), Filter(visible, given));
    assert Map(same, Filter(visible, given)) == Filter(visible, given);
    origin := RearrangedImages(visible, same, given, list);
    DecisionOrderIsPreorder(text);
    SortSorts(DecisionOrder(text), Filter(visible, given));
    forall i, j | 0 <= i < j < |list| ensures InDecisionOrder(list[i], list[j]) {
      assert DecisionOrder(text)(list[i], list[j]);
      ComparedInOrder(text, list[i], list[j]);
    }
    forall i | 0 <= i < |given| ensures visible(given[i]) <==> IsBy(parse, given[i].decidedAt, t) { }
  }

  /** What a built snapshot contains: the open pull requests and issues as they were at T, and the decisions made
      by then. */
  lemma {:induction false} SnapshotShows(parse: Clock, text: Json -> string, sha: string -> string, input: Input)
    returns (pulls: seq<nat>, issues: seq<nat>, decisions: seq<nat>)
    ensures var body, t := BuildFrozenRepoSnapshot(parse, text, sha, input).body, input.frozenAt;
      && body.repo == input.repo && body.commit == input.commit && body.frozenAt == t
      && ListShows(parse, t, input.units, PullRequest, body.pulls, pulls)
      && ListShows(parse, t, input.units, Issue, body.issues, issues)
      && DecisionsShow(parse, t, input.decisions, body.decisions, decisions)
    ensures var s := BuildFrozenRepoSnapshot(parse, text, sha, input); s.checksum == sha(text(BodyJson(s.body)))
  {
    pulls := FrozenUnitsShow(parse, input.units, PullRequest, input.frozenAt);
    issues := FrozenUnitsShow(parse, input.units, Issue, input.frozenAt);
    decisions := BuiltDecisionsShow(parse, text, input.decisions, input.frozenAt);
  }

  // ---------- noninterference ----------

  ghost function Equal<X>(): (X, X) -> bool { (x: X, y: X) => x == y }

  /** The same record up to what happened to it after T: later labels, and a close that is not by T. */
  ghost predicate SameUntil(parse: Clock, t: string, a: WorkUnit, b: WorkUnit) {
    && a.(labels := b.labels, closedAt := b.closedAt) == b
    && (a.closedAt == b.closedAt || (NotClosedBy(parse, a.closedAt, t) && NotClosedBy(parse, b.closedAt, t)))
    && Agree(HiddenLabel(parse, t), Equal(), a.labels, b.labels)
  }

  ghost function SameUnit(parse: Clock, t: string): (WorkUnit, WorkUnit) -> bool {
    (a: WorkUnit, b: WorkUnit) => SameUntil(parse, t, a, b)
  }

  function NotYetCreated(parse: Clock, t: string): WorkUnit -> bool {
    (u: WorkUnit) => !AtOrBefore(parse, u.createdAt, t)
  }

  /** Two inputs that differ only in what happened after T. */
  ghost predicate DifferOnlyAfter(parse: Clock, a: Input, b: Input) {
    var t := a.frozenAt;
    && a.repo == b.repo && a.commit == b.commit && a.frozenAt == b.frozenAt
    && Agree(NotYetCreated(parse, t), SameUnit(parse, t), a.units, b.units)
    && Agree(HiddenDecision(parse, t), Equal(), a.decisions, b.decisions)
  }

  lemma {:induction false} SameFreezes(parse: Clock, t: string, a: WorkUnit, b: WorkUnit)
    requires SameUntil(parse, t, a, b)
    ensures WasOpenAt(parse, a, t) == WasOpenAt(parse, b, t)
    ensures FreezeWorkUnit(parse, a, t) == FreezeWorkUnit(parse, b, t)
  {
    var same := Equal();
    AgreeingFilters(HiddenLabel(parse, t), same, VisibleLabel(parse, t), a.labels, b.labels);
    MapPointwise(same, LabelName(), Filter(VisibleLabel(parse, t), a.labels), Filter(VisibleLabel(parse, t), b.labels));
  }

  lemma {:induction false} UnitsDoNotInterfere(parse: Clock, t: string, xs: seq<WorkUnit>, ys: seq<WorkUnit>,
          kind: Kind)
    requires Agree(NotYetCreated(parse, t), SameUnit(parse, t), xs, ys)
    ensures FrozenUnits(parse, xs, kind, t) == FrozenUnits(parse, ys, kind, t)
  {
    var hidden, same := NotYetCreated(parse, t), SameUnit(parse, t);
    var open := OpenAs(parse, kind, t);
    forall u, v | same(u, v) ensures open(u) == open(v) && Freeze(parse, t)(u) == Freeze(parse, t)(v) {
      SameFreezes(parse, t, u, v);
    }
    AgreeingFilters(hidden, same, open, xs, ys);
    MapPointwise(same, Freeze(parse, t), Filter(open, xs), Filter(open, ys));
  }

  /** Nothing that happened after T can reach the snapshot, not even through the checksum. */
  lemma {:induction false} NonInterference(parse: Clock, text: Json -> string, sha: string -> string, a: Input,
          b: Input)
    requires DifferOnlyAfter(parse, a, b)
    ensures BuildFrozenRepoSnapshot(parse, text, sha, a) == BuildFrozenRepoSnapshot(parse, text, sha, b)
  {
    var t := a.frozenAt;
    UnitsDoNotInterfere(parse, t, a.units, b.units, PullRequest);
    UnitsDoNotInterfere(parse, t, a.units, b.units, Issue);
    var same := Equal();
    var visible := VisibleDecision(parse, t);
    AgreeingFilters(HiddenDecision(parse, t), same, visible, a.decisions, b.decisions);
    assert Filter(visible, a.decisions) == Filter(visible, b.decisions);
  }

  // ---------- order independence ----------

  /** A sorted set depends only on which strings occur. */
  lemma {:induction false} SortedSetCanonical(xs: seq<string>, ys: seq<string>)
    requires Elements(xs) == Elements(ys)
    ensures SortedSet(xs) == SortedSet(ys)
  {
    StringOrderIsPreorder();
    SortOfPermutation(StringOrder(), Distinct(xs), Distinct(ys));
  }

  /** One id names two open units of one kind that look different at T. */
  ghost predicate Clash(parse: Clock, u: WorkUnit, v: WorkUnit, t: string) {
    && u.id == v.id && u.kind == v.kind && WasOpenAt(parse, u, t) && WasOpenAt(parse, v, t)
    && FreezeWorkUnit(parse, u, t) != FreezeWorkUnit(parse, v, t)
  }

  ghost predicate ClashFree(parse: Clock, units: seq<WorkUnit>, t: string) {
    forall u, v :: u in units && v in units ==> !Clash(parse, u, v, t)
  }

  lemma {:induction false} TiedUnitsFreezeAlike(parse: Clock, xs: seq<WorkUnit>, kind: Kind, t: string, i: nat, j: nat)
    requires ClashFree(parse, xs, t)
    requires var us := Filter(OpenAs(parse, kind, t), xs); i < |us| && j < |us| && us[i].id == us[j].id
    ensures var us := Filter(OpenAs(parse, kind, t), xs);
      FreezeWorkUnit(parse, us[i], t) == FreezeWorkUnit(parse, us[j], t)
  {
    var us := Filter(OpenAs(parse, kind, t), xs);
    assert us[i] in us && us[j] in us;
    assert !Clash(parse, us[i], us[j], t);
  }

  lemma {:induction false} FrozenTies(parse: Clock, xs: seq<WorkUnit>, kind: Kind, t: string)
    requires ClashFree(parse, xs, t)
    ensures TiesAreEqual(UnitOrder(), Map(Freeze(parse, t), Filter(OpenAs(parse, kind, t), xs)))
  {
    var us := Filter(OpenAs(parse, kind, t), xs);
    var fs := Map(Freeze(parse, t), us);
    UnitOrderIsPreorder();
    forall i, j | 0 <= i < |fs| && 0 <= j < |fs| && fs[i].id == fs[j].id ensures fs[i] == fs[j] {
      TiedUnitsFreezeAlike(parse, xs, kind, t, i, j);
    }
  }

  lemma {:induction false} UnitsForgetOrder(parse: Clock, xs: seq<WorkUnit>, ys: seq<WorkUnit>, kind: Kind, t: string)
    requires multiset(xs) == multiset(ys) && ClashFree(parse, xs, t)
    ensures FrozenUnits(parse, xs, kind, t) == FrozenUnits(parse, ys, kind, t)
  {
    var open := OpenAs(parse, kind, t);
    FilterPermutation(open, xs, ys);
    MapPermutation(Freeze(parse, t), Filter(open, xs), Filter(open, ys));
    FrozenTies(parse, xs, kind, t);
    UnitOrderIsPreorder();
    SortOfPermutation(UnitOrder(), Map(Freeze(parse, t), Filter(open, xs)), Map(Freeze(parse, t), Filter(open, ys)));
  }

  /** Reading the records in another order cannot change the snapshot. Decisions may repeat freely. Work
      units with distinct ids are clash-free; so is reading one of them twice. */
  lemma {:induction false} OrderIndependence(parse: Clock, text: Json -> string, sha: string -> string, a: Input,
          b: Input)
    requires Injective(text)
    requires a.repo == b.repo && a.commit == b.commit && a.frozenAt == b.frozenAt
    requires multiset(a.units) == multiset(b.units) && multiset(a.decisions) == multiset(b.decisions)
    requires ClashFree(parse, a.units, a.frozenAt)
    ensures BuildFrozenRepoSnapshot(parse, text, sha, a) == BuildFrozenRepoSnapshot(parse, text, sha, b)
  {
    var t := a.frozenAt;
    UnitsForgetOrder(parse, a.units, b.units, PullRequest, t);
    UnitsForgetOrder(parse, a.units, b.units, Issue, t);
    DecisionOrderIsTotal(text);
    FilterPermutation(VisibleDecision(parse, t), a.decisions, b.decisions);
    var visible := VisibleDecision(parse, t);
    SortOfPermutation(DecisionOrder(text), Filter(visible, a.decisions), Filter(visible, b.decisions));
  }

  /** The same record with its labels and changed paths reordered or repeated. */
  ghost predicate SameUpToListOrder(a: WorkUnit, b: WorkUnit) {
    && a.(labels := b.labels, changedPaths := b.changedPaths) == b
    && Elements(a.labels) == Elements(b.labels) && Elements(a.changedPaths) == Elements(b.changedPaths)
  }

  ghost function SameLists(): (WorkUnit, WorkUnit) -> bool { (a: WorkUnit, b: WorkUnit) => SameUpToListOrder(a, b) }

  lemma {:induction false} ListOrderFreezesAway(parse: Clock, t: string, a: WorkUnit, b: WorkUnit)
    requires SameUpToListOrder(a, b)
    ensures FreezeWorkUnit(parse, a, t) == FreezeWorkUnit(parse, b, t)
  {
    SortedSetCanonical(a.changedPaths, b.changedPaths);
    var visible := VisibleLabel(parse, t);
    LabelElements(visible, a.labels, b.labels);
    SortedSetCanonical(Filter(NonEmpty(), Map(LabelName(), Filter(visible, a.labels))),
                       Filter(NonEmpty(), Map(LabelName(), Filter(visible, b.labels))));
  }

  lemma {:induction false} VisibleNameKept(visible: Label -> bool, a: seq<Label>, b: seq<Label>, i: nat)
    requires forall l :: l in a ==> l in b
    requires i < |Filter(visible, a)|
    ensures Filter(visible, a)[i].name in Map(LabelName(), Filter(visible, b))
  {
    var l := Filter(visible, a)[i];
    assert l in Filter(visible, a);
    assert l in Filter(visible, b);
    var j :| 0 <= j < |Filter(visible, b)| && Filter(visible, b)[j] == l;
    assert Map(LabelName(), Filter(visible, b))[j] == l.name;
  }

  lemma {:induction false} LabelElements(visible: Label -> bool, a: seq<Label>, b: seq<Label>)
    requires Elements(a) == Elements(b)
    ensures Elements(Filter(NonEmpty(), Map(LabelName(), Filter(visible, a))))
         == Elements(Filter(NonEmpty(), Map(LabelName(), Filter(visible, b))))
  {
    forall l ensures l in a <==> l in b { assert l in Elements(a) <==> l in Elements(b); }
    var na, nb := Map(LabelName(), Filter(visible, a)), Map(LabelName(), Filter(visible, b));
    forall i | 0 <= i < |na| ensures na[i] in nb { VisibleNameKept(visible, a, b, i); }
    forall i | 0 <= i < |nb| ensures nb[i] in na { VisibleNameKept(visible, b, a, i); }
  }

  lemma {:induction false} UnitsForgetListOrder(parse: Clock, xs: seq<WorkUnit>, ys: seq<WorkUnit>, kind: Kind,
          t: string)
    requires Pointwise(SameLists(), xs, ys)
    ensures FrozenUnits(parse, xs, kind, t) == FrozenUnits(parse, ys, kind, t)
  {
    var open := OpenAs(parse, kind, t);
    PointwiseFilters(SameLists(), open, xs, ys);
    forall u, v | SameLists()(u, v) ensures Freeze(parse, t)(u) == Freeze(parse, t)(v) {
      ListOrderFreezesAway(parse, t, u, v);
    }
    MapPointwise(SameLists(), Freeze(parse, t), Filter(open, xs), Filter(open, ys));
  }

  /** Reordering or repeating labels and changed paths inside the records cannot change it either. */
  lemma {:induction false} ListOrderIndependence(parse: Clock, text: Json -> string, sha: string -> string, a: Input,
          units: seq<WorkUnit>)
    requires Pointwise(SameLists(), a.units, units)
    ensures BuildFrozenRepoSnapshot(parse, text, sha, a)
      == BuildFrozenRepoSnapshot(parse, text, sha, a.(units := units))
  {
    UnitsForgetListOrder(parse, a.units, units, PullRequest, a.frozenAt);
    UnitsForgetListOrder(parse, a.units, units, Issue, a.frozenAt);
  }

  function HasId(id: string): FrozenUnit -> bool { (f: FrozenUnit) => f.id == id }

  /** Among units with one id, the first one read comes first in the snapshot. */
  lemma {:induction false} FirstReadComesFirst(parse: Clock, u: WorkUnit, rest: seq<WorkUnit>, t: string)
    requires WasOpenAt(parse, u, t)
    ensures FirstWith(HasId(u.id), FrozenUnits(parse, [u] + rest, u.kind, t)) == Some(FreezeWorkUnit(parse, u, t))
  {
    var open := OpenAs(parse, u.kind, t);
    var fs := Map(Freeze(parse, t), Filter(open, [u] + rest));
    assert ([u] + rest)[1..] == rest;
    assert fs[0] == FreezeWorkUnit(parse, u, t) && HasId(u.id)(fs[0]) && fs[0] in fs;
    UnitOrderIsPreorder();
    var i := FirstOfSorted(UnitOrder(), HasId(u.id), fs);
    assert i == 0;
  }

  /** `b` is `a` with its work units read in another order. */
  ghost predicate Reordered(a: Input, b: Input) {
    a.(units := b.units) == b && multiset(a.units) == multiset(b.units)
  }

  ghost predicate OrderIndependent(parse: Clock, text: Json -> string, sha: string -> string, a: Input) {
    forall b :: Reordered(a, b) ==>
      BuildFrozenRepoSnapshot(parse, text, sha, b) == BuildFrozenRepoSnapshot(parse, text, sha, a)
  }

  /** A clash is exposed by some read order. */
  lemma {:induction false} ClashShows(parse: Clock, text: Json -> string, sha: string -> string, a: Input, i: nat,
          j: nat)
    returns (b: Input)
    requires i < |a.units| && j < |a.units| && Clash(parse, a.units[i], a.units[j], a.frozenAt)
    ensures Reordered(a, b)
    ensures BuildFrozenRepoSnapshot(parse, text, sha, b) != BuildFrozenRepoSnapshot(parse, text, sha, a)
  {
    var u, v, t := a.units[i], a.units[j], a.frozenAt;
    var fromU, fromV := [u] + Without(a.units, i), [v] + Without(a.units, j);
    FirstReadComesFirst(parse, u, Without(a.units, i), t);
    FirstReadComesFirst(parse, v, Without(a.units, j), t);
    assert FrozenUnits(parse, fromU, u.kind, t) != FrozenUnits(parse, fromV, u.kind, t);
    b := a.(units := fromU);
    if BuildFrozenRepoSnapshot(parse, text, sha, b) == BuildFrozenRepoSnapshot(parse, text, sha, a) {
      b := a.(units := fromV);
    }
  }

  lemma {:induction false} FindClash(parse: Clock, units: seq<WorkUnit>, t: string) returns (i: nat, j: nat)
    requires !ClashFree(parse, units, t)
    ensures i < |units| && j < |units| && Clash(parse, units[i], units[j], t)
  {
    var u, v :| u in units && v in units && Clash(parse, u, v, t);
    i :| i < |units| && units[i] == u;
    j :| j < |units| && units[j] == v;
  }

  /** Order independence holds exactly for clash-free inputs. */
  lemma {:induction false} OrderIndependenceIsExact(parse: Clock, text: Json -> string, sha: string -> string, a: Input)
    requires Injective(text)
    ensures OrderIndependent(parse, text, sha, a) <==> ClashFree(parse, a.units, a.frozenAt)
  {
    if ClashFree(parse, a.units, a.frozenAt) {
      forall b | Reordered(a, b)
        ensures BuildFrozenRepoSnapshot(parse, text, sha, b) == BuildFrozenRepoSnapshot(parse, text, sha, a)
      {
        OrderIndependence(parse, text, sha, a, b);
      }
    } else {
      var i, j := FindClash(parse, a.units, a.frozenAt);
      var b := ClashShows(parse, text, sha, a, i, j);
    }
  }

  // ---------- the checksum commits to the content ----------

  /** An object with `n` entries whose keys are sorted. */
  ghost predicate IsCanonical(json: Json, n: nat) {
    && json.Obj? && |json.entries| == n
    && forall i, j :: 0 <= i < j < n ==> AtMost(json.entries[i].0, json.entries[j].0)
  }

  ghost predicate HasEntry(json: Json, key: string, value: Json) {
    json.Obj? && (key, value) in json.entries
  }

  lemma {:induction false} RecordIsCanonical(keys: seq<string>, values: seq<Json>)
    requires |keys| == |values|
    ensures IsCanonical(Canonicalize(Record(keys, values)), |keys|)
  {
    var record := Record(keys, values);
    StringOrderIsTotal();
    SortSorts(KeyOrder(), record);
    SameElements(record, Sort(KeyOrder(), record));
  }

  lemma {:induction false} RecordHasEntry(keys: seq<string>, values: seq<Json>, i: nat)
    requires |keys| == |values| && i < |keys|
    ensures HasEntry(Canonicalize(Record(keys, values)), keys[i], values[i])
  {
    var record := Record(keys, values);
    SameElements(record, Sort(KeyOrder(), record));
    assert record[i] == (keys[i], values[i]);
  }

  /** What the checksum covers of a decision. */
  lemma {:induction false} DecisionJsonShows(d: Decision)
    ensures var json := DecisionJson()(d);
      && IsCanonical(json, 4)
      && HasEntry(json, "workUnitId", Str(d.id)) && HasEntry(json, "action", Str(d.action))
      && HasEntry(json, "reasonCode", Str(d.reasonCode)) && HasEntry(json, "decidedAt", Str(d.decidedAt))
  {
    var keys, values := DECISION_KEYS, DecisionValues(d);
    RecordIsCanonical(keys, values);
    RecordHasEntry(keys, values, 0);
    RecordHasEntry(keys, values, 1);
    RecordHasEntry(keys, values, 2);
    RecordHasEntry(keys, values, 3);
  }

  /** What the checksum covers of a work unit. */
  lemma {:induction false} UnitJsonShows(u: FrozenUnit)
    ensures var json := UnitJson()(u);
      && IsCanonical(json, 9)
      && HasEntry(json, "workUnitId", Str(u.id)) && HasEntry(json, "number", Num(u.number))
      && HasEntry(json, "kind", Str(if u.kind == Issue then "issue" else "pull_request"))
      && HasEntry(json, "title", Str(u.title)) && HasEntry(json, "body", Str(u.body))
      && HasEntry(json, "authorLogin", Str(u.author)) && HasEntry(json, "createdAt", Str(u.createdAt))
      && HasEntry(json, "labels", Strings(u.labels)) && HasEntry(json, "changedPaths", Strings(u.changedPaths))
  {
    var keys, values := UNIT_KEYS, UnitValues(u);
    RecordIsCanonical(keys, values);
    RecordHasEntry(keys, values, 0);
    RecordHasEntry(keys, values, 1);
    RecordHasEntry(keys, values, 2);
    RecordHasEntry(keys, values, 3);
    RecordHasEntry(keys, values, 4);
    RecordHasEntry(keys, values, 5);
    RecordHasEntry(keys, values, 6);
    RecordHasEntry(keys, values, 7);
    RecordHasEntry(keys, values, 8);
  }

  lemma {:induction false} StringsShow(xs: seq<string>)
    ensures var json := Strings(xs);
      json.Arr? && |json.items| == |xs| && forall i :: 0 <= i < |xs| ==> json.items[i] == Str(xs[i])
  {
  }

  /** What the checksum covers of a snapshot: every field but the checksum itself. */
  lemma {:induction false} BodyJsonShows(b: Body)
    ensures var json := BodyJson(b);
      && IsCanonical(json, 7)
      && HasEntry(json, "schemaVersion", Num(1)) && HasEntry(json, "repoFullName", Str(b.repo))
      && HasEntry(json, "commitSha", Str(b.commit)) && HasEntry(json, "frozenAt", Str(b.frozenAt))
      && HasEntry(json, "openPullRequests", Arr(Map(UnitJson(), b.pulls)))
      && HasEntry(json, "openIssues", Arr(Map(UnitJson(), b.issues)))
      && HasEntry(json, "recentDecisions", Arr(Map(DecisionJson(), b.decisions)))
  {
    var keys, values := BODY_KEYS, BodyValues(b);
    RecordIsCanonical(keys, values);
    RecordHasEntry(keys, values, 0);
    RecordHasEntry(keys, values, 1);
    RecordHasEntry(keys, values, 2);
    RecordHasEntry(keys, values, 3);
    RecordHasEntry(keys, values, 4);
    RecordHasEntry(keys, values, 5);
    RecordHasEntry(keys, values, 6);
  }

  lemma {:induction false} StringsInjective(xs: seq<string>, ys: seq<string>)
    requires Strings(xs) == Strings(ys)
    ensures xs == ys
  {
    var jx, jy := Strings(xs).items, Strings(ys).items;
    assert forall i :: 0 <= i < |xs| ==> jx[i] == Str(xs[i]);
    assert forall i :: 0 <= i < |ys| ==> jy[i] == Str(ys[i]);
  }

  lemma {:induction false} UnitJsonInjective(a: FrozenUnit, b: FrozenUnit)
    requires UnitJson()(a) == UnitJson()(b)
    ensures a == b
  {
    var va, vb := UnitValues(a), UnitValues(b);
    KeysAreDistinct();
    CanonicalRecordInjective(UNIT_KEYS, va, vb);
    assert va[0] == vb[0] && va[1] == vb[1] && va[2] == vb[2] && va[3] == vb[3] && va[4] == vb[4];
    assert va[5] == vb[5] && va[6] == vb[6] && va[7] == vb[7] && va[8] == vb[8];
    StringsInjective(a.labels, b.labels);
    StringsInjective(a.changedPaths, b.changedPaths);
  }

  lemma {:induction false} MapInjective<X(!new), Y>(f: X -> Y, xs: seq<X>, ys: seq<X>)
    requires Injective(f) && Map(f, xs) == Map(f, ys)
    ensures xs == ys
  {
    forall i | 0 <= i < |xs| ensures xs[i] == ys[i] { assert Map(f, xs)[i] == Map(f, ys)[i]; }
  }

  lemma {:induction false} BodyJsonInjective(a: Body, b: Body)
    requires BodyJson(a) == BodyJson(b)
    ensures a == b
  {
    var va, vb := BodyValues(a), BodyValues(b);
    KeysAreDistinct();
    CanonicalRecordInjective(BODY_KEYS, va, vb);
    BodyValuesInjective(a, b);
  }

  lemma {:induction false} BodyValuesInjective(a: Body, b: Body)
    requires BodyValues(a) == BodyValues(b)
    ensures a == b
  {
    var va, vb := BodyValues(a), BodyValues(b);
    assert va[1] == vb[1] && va[2] == vb[2] && va[3] == vb[3] && va[4] == vb[4] && va[5] == vb[5] && va[6] == vb[6];
    UnitsJsonInjective(a.pulls, b.pulls);
    UnitsJsonInjective(a.issues, b.issues);
    DecisionsJsonInjective(a.decisions, b.decisions);
  }

  lemma {:induction false} UnitsJsonInjective(xs: seq<FrozenUnit>, ys: seq<FrozenUnit>)
    requires Map(UnitJson(), xs) == Map(UnitJson(), ys)
    ensures xs == ys
  {
    forall u, v | UnitJson()(u) == UnitJson()(v) ensures u == v { UnitJsonInjective(u, v); }
    MapInjective(UnitJson(), xs, ys);
  }

  lemma {:induction false} DecisionsJsonInjective(xs: seq<Decision>, ys: seq<Decision>)
    requires Map(DecisionJson(), xs) == Map(DecisionJson(), ys)
    ensures xs == ys
  {
    forall d, e | DecisionJson()(d) == DecisionJson()(e) ensures d == e { DecisionJsonInjective(d, e); }
    MapInjective(DecisionJson(), xs, ys);
  }

  /** The text that the checksum of a snapshot commits to. */
  function Preimage(text: Json -> string, s: Snapshot): string {
    text(BodyJson(s.body))
  }

  /** Two snapshots that verify with the same checksum have the same content, unless their own two texts are
      different and collide under the hash. */
  lemma {:induction false} ChecksumCommits(text: Json -> string, sha: string -> string, a: Snapshot, b: Snapshot)
    requires Injective(text)
    requires VerifySnapshotChecksum(text, sha, a) && VerifySnapshotChecksum(text, sha, b)
    requires a.checksum == b.checksum
    ensures a == b || (Preimage(text, a) != Preimage(text, b) && sha(Preimage(text, a)) == sha(Preimage(text, b)))
  {
    var ja, jb := BodyJson(a.body), BodyJson(b.body);
    if ja == jb { BodyJsonInjective(a.body, b.body); }
  }

  /** One pull request read twice, before and after its title was edited. */
  function Retitled(at: string, title: string): WorkUnit {
    WorkUnit("octo/app#1", 1, PullRequest, title, "", "octocat", at, None, [], [])
  }

  /** Reading the two records in the other order gives another snapshot. */
  lemma {:induction false} RetitledUnitsClash(parse: Clock, text: Json -> string, sha: string -> string, at: string)
    requires at != "" && parse(at).Some?
    ensures var before, after := Retitled(at, "Fix"), Retitled(at, "Fix typo");
      && Clash(parse, before, after, at)
      && !OrderIndependent(parse, text, sha, Input("octo/app", "c0ffee", at, [before, after], []))
  {
    var u, v := Retitled(at, "Fix"), Retitled(at, "Fix typo");
    assert |u.title| != |v.title|;
    var a := Input("octo/app", "c0ffee", at, [u, v], []);
    var b := ClashShows(parse, text, sha, a, 0, 1);
  }

  // ---------- the leak audit ----------

  /** A work unit as an arbitrary deserialized object: the two fields the audit reads, and its keys. */
  datatype LooseUnit = LooseUnit(id: string, createdAt: string, keys: set<string>)
  datatype LooseSnapshot = LooseSnapshot(frozenAt: string,
    pulls: seq<LooseUnit>, issues: seq<LooseUnit>, decisions: seq<Decision>)

  datatype Leak =
    | CreatedAfter(kind: Kind, id: string)
    | CarriesOutcome(kind: Kind, id: string, field: string)
    | DecidedAfter(id: string)

  const FORBIDDEN: seq<string> := ["closedAt", "mergedAt", "state", "merged"]

  ghost predicate IsUnitLeak(parse: Clock, t: string, kind: Kind, u: LooseUnit, leak: Leak) {
    match leak
    case CreatedAfter(k, id) => k == kind && id == u.id && !IsBy(parse, u.createdAt, t)
    case CarriesOutcome(k, id, field) =>
      && k == kind && id == u.id && field in u.keys
      && (field == "closedAt" || field == "mergedAt" || field == "state" || field == "merged")
    case DecidedAfter(_) => false
  }

  ghost predicate IsLeak(parse: Clock, s: LooseSnapshot, leak: Leak) {
    || (exists u :: u in s.pulls && IsUnitLeak(parse, s.frozenAt, PullRequest, u, leak))
    || (exists u :: u in s.issues && IsUnitLeak(parse, s.frozenAt, Issue, u, leak))
    || (exists d :: d in s.decisions && leak == DecidedAfter(d.id) && !IsBy(parse, d.decidedAt, s.frozenAt))
  }

  /** The outcome fields among the first `n` forbidden ones that a unit carries. */
  function CarriedLeaks(kind: Kind, u: LooseUnit, n: nat): seq<Leak>
    requires n <= |FORBIDDEN|
  {
    if n == 0 then []
    else
      var field := FORBIDDEN[n - 1];
      CarriedLeaks(kind, u, n - 1) + if field in u.keys then [CarriesOutcome(kind, u.id, field)] else []
  }

  function UnitLeaks(parse: Clock, t: string, kind: Kind, u: LooseUnit): seq<Leak> {
    (if AtOrBefore(parse, u.createdAt, t) then [] else [CreatedAfter(kind, u.id)]) + CarriedLeaks(kind, u, |FORBIDDEN|)
  }

  function UnitsLeaks(parse: Clock, t: string, kind: Kind, us: seq<LooseUnit>): seq<Leak> {
    if us == [] then [] else UnitsLeaks(parse, t, kind, us[..|us| - 1]) + UnitLeaks(parse, t, kind, us[|us| - 1])
  }

  function DecisionLeaks(parse: Clock, t: string, ds: seq<Decision>): seq<Leak> {
    if ds == [] then []
    else
      var d := ds[|ds| - 1];
      DecisionLeaks(parse, t, ds[..|ds| - 1]) + if AtOrBefore(parse, d.decidedAt, t) then [] else [DecidedAfter(d.id)]
  }

  /** The report: pull requests, issues, decisions, each in snapshot order. */
  function Leaks(parse: Clock, s: LooseSnapshot): seq<Leak> {
    UnitsLeaks(parse, s.frozenAt, PullRequest, s.pulls) + UnitsLeaks(parse, s.frozenAt, Issue, s.issues)
    + DecisionLeaks(parse, s.frozenAt, s.decisions)
  }

  method CheckUnit(parse: Clock, t: string, kind: Kind, u: LooseUnit) returns (leaks: seq<Leak>)
    ensures leaks == UnitLeaks(parse, t, kind, u)
  {
    leaks := [];
    if !AtOrBefore(parse, u.createdAt, t) { leaks := leaks + [CreatedAfter(kind, u.id)]; }
    ghost var created := leaks;
    for i := 0 to |FORBIDDEN|
      invariant leaks == created + CarriedLeaks(kind, u, i)
    {
      if FORBIDDEN[i] in u.keys { leaks := leaks + [CarriesOutcome(kind, u.id, FORBIDDEN[i])]; }
    }
  }

  method CheckUnits(parse: Clock, t: string, kind: Kind, units: seq<LooseUnit>) returns (leaks: seq<Leak>)
    ensures leaks == UnitsLeaks(parse, t, kind, units)
  {
    leaks := [];
    for i := 0 to |units|
      invariant leaks == UnitsLeaks(parse, t, kind, units[..i])
    {
      assert units[..i + 1][..i] == units[..i];
      var found := CheckUnit(parse, t, kind, units[i]);
      leaks := leaks + found;
    }
    assert units[..|units|] == units;
  }

  /** The audit reports every leak of a snapshot, however it was made, in order, and nothing else. */
  method AuditSnapshotForLeaks(parse: Clock, s: LooseSnapshot) returns (leaks: seq<Leak>)
    ensures leaks == Leaks(parse, s)
    ensures forall leak :: leak in leaks <==> IsLeak(parse, s, leak)
  {
    var pulls := CheckUnits(parse, s.frozenAt, PullRequest, s.pulls);
    var issues := CheckUnits(parse, s.frozenAt, Issue, s.issues);
    var decided: seq<Leak> := [];
    for i := 0 to |s.decisions|
      invariant decided == DecisionLeaks(parse, s.frozenAt, s.decisions[..i])
    {
      assert s.decisions[..i + 1][..i] == s.decisions[..i];
      if !AtOrBefore(parse, s.decisions[i].decidedAt, s.frozenAt) {
        decided := decided + [DecidedAfter(s.decisions[i].id)];
      }
    }
    assert s.decisions[..|s.decisions|] == s.decisions;
    leaks := pulls + issues + decided;
    LeaksAreExact(parse, s);
  }

  lemma {:induction false} CarriedLeaksAre(kind: Kind, u: LooseUnit, n: nat, leak: Leak)
    requires n <= |FORBIDDEN|
    ensures leak in CarriedLeaks(kind, u, n) <==>
      && leak.CarriesOutcome? && leak == CarriesOutcome(kind, u.id, leak.field)
      && leak.field in FORBIDDEN[..n] && leak.field in u.keys
  {
    if n > 0 {
      CarriedLeaksAre(kind, u, n - 1, leak);
      assert FORBIDDEN[..n] == FORBIDDEN[..n - 1] + [FORBIDDEN[n - 1]];
    }
  }

  lemma {:induction false} UnitLeaksAre(parse: Clock, t: string, kind: Kind, u: LooseUnit, leak: Leak)
    ensures leak in UnitLeaks(parse, t, kind, u) <==> IsUnitLeak(parse, t, kind, u, leak)
  {
    CarriedLeaksAre(kind, u, |FORBIDDEN|, leak);
    assert FORBIDDEN[..|FORBIDDEN|] == FORBIDDEN;
  }

  lemma {:induction false} UnitsLeaksAre(parse: Clock, t: string, kind: Kind, us: seq<LooseUnit>, leak: Leak)
    ensures leak in UnitsLeaks(parse, t, kind, us) <==> exists u :: u in us && IsUnitLeak(parse, t, kind, u, leak)
  {
    if us != [] {
      var n := |us| - 1;
      assert us == us[..n] + [us[n]];
      UnitsLeaksAre(parse, t, kind, us[..n], leak);
      UnitLeaksAre(parse, t, kind, us[n], leak);
    }
  }

  lemma {:induction false} DecisionLeaksAre(parse: Clock, t: string, ds: seq<Decision>, leak: Leak)
    ensures leak in DecisionLeaks(parse, t, ds) <==>
      exists d :: d in ds && leak == DecidedAfter(d.id) && !AtOrBefore(parse, d.decidedAt, t)
  {
    if ds != [] {
      var n := |ds| - 1;
      assert ds == ds[..n] + [ds[n]];
      DecisionLeaksAre(parse, t, ds[..n], leak);
    }
  }

  lemma {:induction false} LeaksAreExact(parse: Clock, s: LooseSnapshot)
    ensures forall leak :: leak in Leaks(parse, s) <==> IsLeak(parse, s, leak)
  {
    forall leak ensures leak in Leaks(parse, s) <==> IsLeak(parse, s, leak) {
      UnitsLeaksAre(parse, s.frozenAt, PullRequest, s.pulls, leak);
      UnitsLeaksAre(parse, s.frozenAt, Issue, s.issues, leak);
      DecisionLeaksAre(parse, s.frozenAt, s.decisions, leak);
    }
  }

  function Loose(): FrozenUnit -> LooseUnit { (u: FrozenUnit) => LooseUnit(u.id, u.createdAt, set k | k in UNIT_KEYS) }

  function Loosen(s: Snapshot): LooseSnapshot {
    LooseSnapshot(s.body.frozenAt, Map(Loose(), s.body.pulls), Map(Loose(), s.body.issues), s.body.decisions)
  }

  lemma {:induction false} BuiltUnitsAreVisible(parse: Clock, units: seq<WorkUnit>, kind: Kind, t: string, i: nat)
    requires i < |FrozenUnits(parse, units, kind, t)|
    ensures AtOrBefore(parse, FrozenUnits(parse, units, kind, t)[i].createdAt, t)
  {
    var us := Filter(OpenAs(parse, kind, t), units);
    var f := FrozenUnits(parse, units, kind, t)[i];
    SortKeepsMembers(UnitOrder(), Map(Freeze(parse, t), us), f);
    var j := MapOrigin(Freeze(parse, t), us, f);
    FrozenWhenVisible(parse, units, kind, t, us[j]);
  }

  lemma {:induction false} FrozenWhenVisible(parse: Clock, units: seq<WorkUnit>, kind: Kind, t: string, u: WorkUnit)
    requires u in Filter(OpenAs(parse, kind, t), units)
    ensures AtOrBefore(parse, FreezeWorkUnit(parse, u, t).createdAt, t)
  {
  }

  lemma {:induction false} ForbiddenAreNotUnitKeys(i: nat, j: nat)
    requires i < |FORBIDDEN| && j < |UNIT_KEYS|
    ensures FORBIDDEN[i] != UNIT_KEYS[j]
  {
    var f, u := FORBIDDEN, UNIT_KEYS;
    assert f[0][1] == 'l' && f[1][0] == 'm' && f[2][0] == 's' && f[3][0] == 'm' && f[0][0] == 'c';
    assert u[0][0] == 'w' && u[1][0] == 'n' && u[2][0] == 'k' && u[3][0] == 't' && u[4][0] == 'b' && u[5][0] == 'a';
    assert u[6][1] == 'r' && u[7][0] == 'l' && u[8][1] == 'h' && u[6][0] == 'c' && u[8][0] == 'c';
  }

  lemma {:induction false} BuiltUnitsDoNotLeak(parse: Clock, units: seq<WorkUnit>, kind: Kind, t: string, u: LooseUnit,
          leak: Leak)
    requires u in Map(Loose(), FrozenUnits(parse, units, kind, t))
    ensures !IsUnitLeak(parse, t, kind, u, leak)
  {
    var fs := FrozenUnits(parse, units, kind, t);
    var i :| 0 <= i < |fs| && Map(Loose(), fs)[i] == u;
    BuiltUnitsAreVisible(parse, units, kind, t, i);
    if leak.CarriesOutcome? && leak.field in FORBIDDEN { NoOutcomeKey(leak.field); }
    assert leak.CarriesOutcome? ==> leak.field !in u.keys || leak.field !in FORBIDDEN;
    AllForbidden();
  }

  lemma {:induction false} AllForbidden()
    ensures "closedAt" in FORBIDDEN && "mergedAt" in FORBIDDEN && "state" in FORBIDDEN && "merged" in FORBIDDEN
  {
    var f := FORBIDDEN;
    assert f[0] in f && f[1] in f && f[2] in f && f[3] in f;
  }

  lemma {:induction false} NoOutcomeKey(field: string)
    requires field in FORBIDDEN
    ensures field !in UNIT_KEYS
  {
    var k :| 0 <= k < |FORBIDDEN| && FORBIDDEN[k] == field;
    forall j | 0 <= j < |UNIT_KEYS| ensures field != UNIT_KEYS[j] { ForbiddenAreNotUnitKeys(k, j); }
  }

  ghost predicate NoUnitLeaks(parse: Clock, t: string, kind: Kind, us: seq<LooseUnit>) {
    forall u, leak :: u in us ==> !IsUnitLeak(parse, t, kind, u, leak)
  }

  ghost predicate NoDecisionLeaks(parse: Clock, t: string, ds: seq<Decision>) {
    forall d :: d in ds ==> AtOrBefore(parse, d.decidedAt, t)
  }

  lemma {:induction false} BuiltUnitsAreClean(parse: Clock, units: seq<WorkUnit>, kind: Kind, t: string)
    ensures NoUnitLeaks(parse, t, kind, Map(Loose(), FrozenUnits(parse, units, kind, t)))
  {
    var us := Map(Loose(), FrozenUnits(parse, units, kind, t));
    forall u, leak | u in us ensures !IsUnitLeak(parse, t, kind, u, leak) {
      BuiltUnitsDoNotLeak(parse, units, kind, t, u, leak);
    }
  }

  lemma {:induction false} BuiltDecisionsAreClean(parse: Clock, text: Json -> string, ds: seq<Decision>, t: string)
    ensures NoDecisionLeaks(parse, t, Sort(DecisionOrder(text), Filter(VisibleDecision(parse, t), ds)))
  {
    var visible := Filter(VisibleDecision(parse, t), ds);
    SameElements(visible, Sort(DecisionOrder(text), visible));
  }

  lemma {:induction false} CleanPartsDoNotLeak(parse: Clock, s: LooseSnapshot)
    requires NoUnitLeaks(parse, s.frozenAt, PullRequest, s.pulls) && NoUnitLeaks(parse, s.frozenAt, Issue, s.issues)
    requires NoDecisionLeaks(parse, s.frozenAt, s.decisions)
    ensures forall leak :: !IsLeak(parse, s, leak)
  {
  }

  /** Every built snapshot verifies its own checksum and has no leak for the audit to find. */
  lemma {:induction false} BuiltSnapshotIsSound(parse: Clock, text: Json -> string, sha: string -> string, input: Input)
    ensures var s := BuildFrozenRepoSnapshot(parse, text, sha, input);
      VerifySnapshotChecksum(text, sha, s) && forall leak :: !IsLeak(parse, Loosen(s), leak)
  {
    BuiltUnitsAreClean(parse, input.units, PullRequest, input.frozenAt);
    BuiltUnitsAreClean(parse, input.units, Issue, input.frozenAt);
    BuiltDecisionsAreClean(parse, text, input.decisions, input.frozenAt);
    CleanPartsDoNotLeak(parse, Loosen(BuildFrozenRepoSnapshot(parse, text, sha, input)));
  }
}
