/** Linked-versions coverage of the release configuration (scripts/check-release-linked-versions.ts). */
module LinkedVersions {
  import opened Text

  /** A linked-versions plugin with a component list, its non-string components dropped; or anything else. */
  datatype Plugin = LinkedVersions(groupName: Option<string>, components: seq<string>) | OtherPlugin

  datatype Field = Dependencies | PeerDependencies | OptionalDependencies
  datatype PackageJson = PackageJson(name: Option<string>,
    dependencies: seq<string>, peer: seq<string>, optional: seq<string>)

  /** One tracked workspace path: its component, and its package.json if it was read. */
  datatype Tracked = Tracked(path: string, component: Option<string>, json: Option<PackageJson>)

  datatype Violation =
    | MissingManifestEntry(path: string)
    | UnlinkedEdge(from: string, to: string, field: Field, fromGroup: Option<string>, toGroup: Option<string>)

  // ---------- groups ----------

  function AddComponents(groups: map<string, string>, name: string, components: seq<string>): map<string, string> {
    if components == [] then groups
    else
      var n := |components| - 1;
      AddComponents(groups, name, components[..n])[components[n] := name]
  }

  function GroupName(p: Plugin): string
    requires p.LinkedVersions?
  {
    if p.groupName.Some? then p.groupName.value else "<unnamed>"
  }

  /** The last plugin that names a component decides its group. */
  function Groups(plugins: seq<Plugin>): map<string, string> {
    if plugins == [] then map[]
    else
      var last, groups := plugins[|plugins| - 1], Groups(plugins[..|plugins| - 1]);
      if last.LinkedVersions? then AddComponents(groups, GroupName(last), last.components) else groups
  }

  method LinkedVersionGroups(plugins: seq<Plugin>) returns (groups: map<string, string>)
    ensures groups == Groups(plugins)
  {
    groups := map[];
    for i := 0 to |plugins|
      invariant groups == Groups(plugins[..i])
    {
      assert plugins[..i + 1][..i] == plugins[..i];
      if plugins[i].OtherPlugin? { continue; }
      var components, before := plugins[i].components, groups;
      for k := 0 to |components|
        invariant groups == AddComponents(before, GroupName(plugins[i]), components[..k])
      {
        assert components[..k + 1][..k] == components[..k];
        groups := groups[components[k] := GroupName(plugins[i])];
      }
      assert components[..|components|] == components;
    }
    assert plugins[..|plugins|] == plugins;
  }

  lemma {:induction false} AddedComponent(groups: map<string, string>, name: string, components: seq<string>, c: string)
    ensures c in AddComponents(groups, name, components) <==> c in groups || c in components
    ensures c in components ==> AddComponents(groups, name, components)[c] == name
    ensures c !in components && c in groups ==> AddComponents(groups, name, components)[c] == groups[c]
  {
    if components != [] { AddedComponent(groups, name, components[..|components| - 1], c); }
  }

  /** Two components share a group name exactly as the plugins say: the last plugin naming each has that name. */
  lemma {:induction false} GroupIsLastNamed(plugins: seq<Plugin>, c: string, i: int)
    requires 0 <= i < |plugins| && plugins[i].LinkedVersions? && c in plugins[i].components
    requires forall j :: i < j < |plugins| && plugins[j].LinkedVersions? ==> c !in plugins[j].components
    ensures c in Groups(plugins) && Groups(plugins)[c] == GroupName(plugins[i])
  {
    var n := |plugins| - 1;
    if plugins[n].LinkedVersions? {
      AddedComponent(Groups(plugins[..n]), GroupName(plugins[n]), plugins[n].components, c);
    }
    if i < n { GroupIsLastNamed(plugins[..n], c, i); }
  }

  function GroupOf(groups: map<string, string>, component: string): Option<string> {
    if component in groups then Some(groups[component]) else None
  }

  // ---------- the check ----------

  /** A tracked path with both a package name and a component. */
  predicate Usable(t: Tracked) { t.json.Some? && t.json.value.name.Some? && t.component.Some? }
  function NameOf(t: Tracked): string requires Usable(t) { t.json.value.name.value }
  function DepsOf(t: Tracked, f: Field): seq<string>
    requires t.json.Some?
  {
    match f
    case Dependencies => t.json.value.dependencies
    case PeerDependencies => t.json.value.peer
    case OptionalDependencies => t.json.value.optional
  }

  /** `componentByPackageName`: the last tracked path with a name wins. */
  function Components(ts: seq<Tracked>): map<string, string> {
    if ts == [] then map[]
    else
      var last := ts[|ts| - 1];
      var before := Components(ts[..|ts| - 1]);
      if Usable(last) then before[NameOf(last) := last.component.value] else before
  }

  predicate Linked(from: Option<string>, to: Option<string>) {
    from.Some? && to.Some? && from == to
  }

  ghost predicate IsUnlinked(groups: map<string, string>, components: map<string, string>, t: Tracked, v: Violation) {
    && Usable(t) && v.UnlinkedEdge? && v.from == NameOf(t) && v.to in DepsOf(t, v.field) && v.to in components
    && v.fromGroup == GroupOf(groups, t.component.value) && v.toGroup == GroupOf(groups, components[v.to])
    && !Linked(v.fromGroup, v.toGroup)
  }

  // ---------- the check on its inputs ----------

  ghost predicate Names(p: Plugin, c: string) { p.LinkedVersions? && c in p.components }

  /** The group of a component: the name of the last plugin that names it, if any does. */
  ghost predicate IsGroupOf(plugins: seq<Plugin>, c: string, g: Option<string>) {
    match g
    case None => forall i :: 0 <= i < |plugins| ==> !Names(plugins[i], c)
    case Some(name) => exists i ::
      && 0 <= i < |plugins| && Names(plugins[i], c) && (forall j :: i < j < |plugins| ==> !Names(plugins[j], c))
      && plugins[i].groupName == (if plugins[i].groupName.None? && name == "<unnamed>" then None else Some(name))
  }

  /** A tracked path with a component that holds the package of this name. */
  ghost predicate Holds(t: Tracked, name: string) {
    t.component.Some? && t.json.Some? && t.json.value.name == Some(name)
  }

  /** The component of a package: that of the last tracked path holding it. */
  ghost predicate IsComponentOf(ts: seq<Tracked>, name: string, c: string) {
    exists i :: 0 <= i < |ts| && Holds(ts[i], name) && ts[i].component == Some(c)
      && forall j :: i < j < |ts| ==> !Holds(ts[j], name)
  }

  /** Any of the three fields is shipped. */
  ghost predicate Lists(json: PackageJson, field: Field, dep: string) {
    match field
    case Dependencies => dep in json.dependencies
    case PeerDependencies => dep in json.peer
    case OptionalDependencies => dep in json.optional
  }

  ghost predicate IsFrom(plugins: seq<Plugin>, t: Tracked, v: Violation)
    requires v.UnlinkedEdge?
  {
    Holds(t, v.from) && Lists(t.json.value, v.field, v.to) && IsGroupOf(plugins, t.component.value, v.fromGroup)
  }

  /** A tracked path without a manifest entry, or a shipped dependency on a tracked package that is not in the same
      group, or in none. */
  ghost predicate IsViolation(plugins: seq<Plugin>, ts: seq<Tracked>, manifestKeys: set<string>, v: Violation) {
    match v
    case MissingManifestEntry(path) => path !in manifestKeys && exists t :: t in ts && t.path == path
    case UnlinkedEdge(_, to, _, fromGroup, toGroup) =>
      && (exists t :: t in ts && IsFrom(plugins, t, v))
      && (exists c :: IsComponentOf(ts, to, c) && IsGroupOf(plugins, c, toGroup))
      && (fromGroup.None? || toGroup.None? || fromGroup != toGroup)
  }

  lemma {:induction false} GroupIsUnique(plugins: seq<Plugin>, c: string, g: Option<string>, h: Option<string>)
    requires IsGroupOf(plugins, c, g) && IsGroupOf(plugins, c, h)
    ensures g == h
  {
    if g.Some? && h.Some? {
      var i :| 0 <= i < |plugins| && Names(plugins[i], c) && (forall j :: i < j < |plugins| ==> !Names(plugins[j], c))
        && plugins[i].groupName == (if plugins[i].groupName.None? && g.value == "<unnamed>" then None else g);
      var k :| 0 <= k < |plugins| && Names(plugins[k], c) && (forall j :: k < j < |plugins| ==> !Names(plugins[j], c))
        && plugins[k].groupName == (if plugins[k].groupName.None? && h.value == "<unnamed>" then None else h);
      assert i == k;
    }
  }

  lemma {:induction false} GroupsAreRight(plugins: seq<Plugin>, c: string, g: Option<string>)
    ensures GroupOf(Groups(plugins), c) == g <==> IsGroupOf(plugins, c, g)
  {
    var d := Decider(plugins, c);
    DeciderNames(plugins, c);
    DeciderIsLast(plugins, c);
    var decided := GroupOf(Groups(plugins), c);
    if d.Some? {
      var i := d.value;
      assert Names(plugins[i], c) && forall j :: i < j < |plugins| ==> !Names(plugins[j], c);
    }
    assert IsGroupOf(plugins, c, decided);
    if IsGroupOf(plugins, c, g) { GroupIsUnique(plugins, c, g, decided); }
  }

  lemma {:induction false} DeciderIsLast(plugins: seq<Plugin>, c: string)
    ensures var d := Decider(plugins, c);
      forall j :: (if d.Some? then d.value + 1 else 0) <= j < |plugins| ==> !Names(plugins[j], c)
  {
    if plugins != [] {
      var n := |plugins| - 1;
      DeciderIsLast(plugins[..n], c);
      forall j | (if Decider(plugins, c).Some? then Decider(plugins, c).value + 1 else 0) <= j < |plugins|
        ensures !Names(plugins[j], c)
      {
        if j < n { assert plugins[..n][j] == plugins[j]; }
      }
    }
  }

  lemma {:induction false} ComponentsAreRight(ts: seq<Tracked>, name: string, c: string)
    ensures name in Components(ts) && Components(ts)[name] == c <==> IsComponentOf(ts, name, c)
  {
    if ts != [] {
      var n := |ts| - 1;
      ComponentsAreRight(ts[..n], name, c);
      if Holds(ts[n], name) {
        assert Usable(ts[n]) && NameOf(ts[n]) == name;
      } else {
        if IsComponentOf(ts, name, c) {
          var i :| 0 <= i < |ts| && Holds(ts[i], name) && ts[i].component == Some(c)
            && forall j :: i < j < |ts| ==> !Holds(ts[j], name);
          assert ts[..n][i] == ts[i] && forall j :: i < j < n ==> ts[..n][j] == ts[j];
        }
        if IsComponentOf(ts[..n], name, c) {
          var i :| 0 <= i < n && Holds(ts[..n][i], name) && ts[..n][i].component == Some(c)
            && forall j :: i < j < n ==> !Holds(ts[..n][j], name);
          assert ts[i] == ts[..n][i] && forall j :: i < j < n ==> ts[..n][j] == ts[j];
        }
      }
    }
  }

  lemma {:induction false} UnlinkedIsFrom(plugins: seq<Plugin>, ts: seq<Tracked>, t: Tracked, v: Violation)
    requires v.UnlinkedEdge?
    ensures IsUnlinked(Groups(plugins), Components(ts), t, v) <==>
      && IsFrom(plugins, t, v)
      && (exists c :: IsComponentOf(ts, v.to, c) && IsGroupOf(plugins, c, v.toGroup))
      && (v.fromGroup.None? || v.toGroup.None? || v.fromGroup != v.toGroup)
  {
    if t.component.Some? { GroupsAreRight(plugins, t.component.value, v.fromGroup); }
    forall c ensures v.to in Components(ts) && Components(ts)[v.to] == c <==> IsComponentOf(ts, v.to, c) {
      ComponentsAreRight(ts, v.to, c);
    }
    forall c ensures GroupOf(Groups(plugins), c) == v.toGroup <==> IsGroupOf(plugins, c, v.toGroup) {
      GroupsAreRight(plugins, c, v.toGroup);
    }
  }

  // ---------- the report ----------

  /** What the report says about the dependencies `deps` of a package. */
  function FieldFindings(groups: map<string, string>, components: map<string, string>, t: Tracked, field: Field,
          deps: seq<string>): seq<Violation>
    requires Usable(t)
  {
    if deps == [] then []
    else
      var n := |deps| - 1;
      var before := FieldFindings(groups, components, t, field, deps[..n]);
      if deps[n] !in components then before
      else
        var fromGroup, toGroup := GroupOf(groups, t.component.value), GroupOf(groups, components[deps[n]]);
        if Linked(fromGroup, toGroup) then before
        else before + [UnlinkedEdge(NameOf(t), deps[n], field, fromGroup, toGroup)]
  }

  function PackageFindings(groups: map<string, string>, components: map<string, string>, t: Tracked): seq<Violation> {
    if !Usable(t) then []
    else
      var a := FieldFindings(groups, components, t, Dependencies, DepsOf(t, Dependencies));
      var b := FieldFindings(groups, components, t, PeerDependencies, DepsOf(t, PeerDependencies));
      var c := FieldFindings(groups, components, t, OptionalDependencies, DepsOf(t, OptionalDependencies));
      a + b + c
  }

  function EdgeFindings(groups: map<string, string>, components: map<string, string>, ts: seq<Tracked>): seq<Violation>
  {
    if ts == [] then []
    else EdgeFindings(groups, components, ts[..|ts| - 1]) + PackageFindings(groups, components, ts[|ts| - 1])
  }

  function MissingFindings(ts: seq<Tracked>, manifestKeys: set<string>): seq<Violation> {
    if ts == [] then []
    else
      var path := ts[|ts| - 1].path;
      MissingFindings(ts[..|ts| - 1], manifestKeys) + if path in manifestKeys then [] else [MissingManifestEntry(path)]
  }

  /** The report: missing entries, then unlinked edges, by path, dependency field and dependency. */
  function Findings(plugins: seq<Plugin>, ts: seq<Tracked>, manifestKeys: set<string>): seq<Violation> {
    MissingFindings(ts, manifestKeys) + EdgeFindings(Groups(plugins), Components(ts), ts)
  }

  lemma {:induction false} FieldFindingsAre(groups: map<string, string>, components: map<string, string>, t: Tracked,
          field: Field, deps: seq<string>, v: Violation)
    requires Usable(t)
    ensures v in FieldFindings(groups, components, t, field, deps) <==>
      && v.UnlinkedEdge? && v.field == field && v.from == NameOf(t) && v.to in deps && v.to in components
      && v.fromGroup == GroupOf(groups, t.component.value) && v.toGroup == GroupOf(groups, components[v.to])
      && !Linked(v.fromGroup, v.toGroup)
  {
    if deps != [] {
      var n := |deps| - 1;
      assert deps == deps[..n] + [deps[n]];
      FieldFindingsAre(groups, components, t, field, deps[..n], v);
    }
  }

  lemma {:induction false} PackageFindingsAre(groups: map<string, string>, components: map<string, string>, t: Tracked,
          v: Violation)
    ensures v in PackageFindings(groups, components, t) <==> IsUnlinked(groups, components, t, v)
  {
    if Usable(t) {
      FieldFindingsAre(groups, components, t, Dependencies, DepsOf(t, Dependencies), v);
      FieldFindingsAre(groups, components, t, PeerDependencies, DepsOf(t, PeerDependencies), v);
      FieldFindingsAre(groups, components, t, OptionalDependencies, DepsOf(t, OptionalDependencies), v);
    }
  }

  lemma {:induction false} EdgeFindingsAre(groups: map<string, string>, components: map<string, string>,
          ts: seq<Tracked>, v: Violation)
    ensures v in EdgeFindings(groups, components, ts) <==> exists t :: t in ts && IsUnlinked(groups, components, t, v)
  {
    if ts != [] {
      var n := |ts| - 1;
      assert ts == ts[..n] + [ts[n]];
      EdgeFindingsAre(groups, components, ts[..n], v);
      PackageFindingsAre(groups, components, ts[n], v);
    }
  }

  lemma {:induction false} MissingFindingsAre(ts: seq<Tracked>, manifestKeys: set<string>, v: Violation)
    ensures v in MissingFindings(ts, manifestKeys) <==>
      v.MissingManifestEntry? && v.path !in manifestKeys && exists t :: t in ts && t.path == v.path
  {
    if ts != [] {
      var n := |ts| - 1;
      assert ts == ts[..n] + [ts[n]];
      MissingFindingsAre(ts[..n], manifestKeys, v);
    }
  }

  method CheckField(groups: map<string, string>, components: map<string, string>, t: Tracked, field: Field)
    returns (violations: seq<Violation>)
    requires Usable(t)
    ensures violations == FieldFindings(groups, components, t, field, DepsOf(t, field))
  {
    violations := [];
    var deps := DepsOf(t, field);
    for i := 0 to |deps|
      invariant violations == FieldFindings(groups, components, t, field, deps[..i])
    {
      var dep := deps[i];
      assert deps[..i + 1][..i] == deps[..i];
      if dep !in components { continue; }
      var fromGroup, toGroup := GroupOf(groups, t.component.value), GroupOf(groups, components[dep]);
      if fromGroup.None? || toGroup.None? || fromGroup != toGroup {
        violations := violations + [UnlinkedEdge(NameOf(t), dep, field, fromGroup, toGroup)];
      }
    }
    assert deps[..|deps|] == deps;
  }

  method CheckPackage(groups: map<string, string>, components: map<string, string>, t: Tracked)
    returns (violations: seq<Violation>)
    ensures violations == PackageFindings(groups, components, t)
  {
    violations := [];
    if !Usable(t) { return; }
    var a := CheckField(groups, components, t, Dependencies);
    var b := CheckField(groups, components, t, PeerDependencies);
    var c := CheckField(groups, components, t, OptionalDependencies);
    violations := a + b + c;
  }

  method MissingEntries(ts: seq<Tracked>, manifestKeys: set<string>) returns (violations: seq<Violation>)
    ensures violations == MissingFindings(ts, manifestKeys)
  {
    violations := [];
    for i := 0 to |ts|
      invariant violations == MissingFindings(ts[..i], manifestKeys)
    {
      assert ts[..i + 1][..i] == ts[..i];
      if ts[i].path !in manifestKeys { violations := violations + [MissingManifestEntry(ts[i].path)]; }
    }
    assert ts[..|ts|] == ts;
  }

  method ComponentByPackageName(ts: seq<Tracked>) returns (components: map<string, string>)
    ensures components == Components(ts)
  {
    components := map[];
    for i := 0 to |ts|
      invariant components == Components(ts[..i])
    {
      assert ts[..i + 1][..i] == ts[..i];
      if Usable(ts[i]) { components := components[NameOf(ts[i]) := ts[i].component.value]; }
    }
    assert ts[..|ts|] == ts;
  }

  /** The violations are exactly the untracked paths and the unlinked ship-affecting edges, in order. */
  method CheckReleaseLinkedVersions(plugins: seq<Plugin>, ts: seq<Tracked>, manifestKeys: set<string>)
    returns (violations: seq<Violation>)
    ensures violations == Findings(plugins, ts, manifestKeys)
    ensures forall v :: v in violations <==> IsViolation(plugins, ts, manifestKeys, v)
  {
    var missing := MissingEntries(ts, manifestKeys);
    var groups := LinkedVersionGroups(plugins);
    var components := ComponentByPackageName(ts);
    var edges: seq<Violation> := [];
    for i := 0 to |ts|
      invariant edges == EdgeFindings(groups, components, ts[..i])
    {
      assert ts[..i + 1][..i] == ts[..i];
      var found := CheckPackage(groups, components, ts[i]);
      edges := edges + found;
    }
    assert ts[..|ts|] == ts;
    violations := missing + edges;
    FindingsAreExact(plugins, ts, manifestKeys);
  }

  lemma {:induction false} FindingsAreExact(plugins: seq<Plugin>, ts: seq<Tracked>, manifestKeys: set<string>)
    ensures forall v :: v in Findings(plugins, ts, manifestKeys) <==> IsViolation(plugins, ts, manifestKeys, v)
  {
    forall v ensures v in Findings(plugins, ts, manifestKeys) <==> IsViolation(plugins, ts, manifestKeys, v) {
      MissingFindingsAre(ts, manifestKeys, v);
      EdgeFindingsAre(Groups(plugins), Components(ts), ts, v);
      if v.UnlinkedEdge? {
        forall t | t in ts
          ensures IsUnlinked(Groups(plugins), Components(ts), t, v) <==>
            && IsFrom(plugins, t, v)
            && (exists c :: IsComponentOf(ts, v.to, c) && IsGroupOf(plugins, c, v.toGroup))
            && (v.fromGroup.None? || v.toGroup.None? || v.fromGroup != v.toGroup)
        {
          UnlinkedIsFrom(plugins, ts, t, v);
        }
      }
    }
  }

  // ---------- from edges to chains ----------

  ghost predicate DistinctNames(ts: seq<Tracked>) {
    forall i, j :: 0 <= i < j < |ts| && Usable(ts[i]) && Usable(ts[j]) ==> NameOf(ts[i]) != NameOf(ts[j])
  }

  lemma {:induction false} ComponentsAreOwn(ts: seq<Tracked>, i: int)
    requires DistinctNames(ts) && 0 <= i < |ts| && Usable(ts[i])
    ensures NameOf(ts[i]) in Components(ts) && Components(ts)[NameOf(ts[i])] == ts[i].component.value
  {
    var n := |ts| - 1;
    if i < n {
      assert ts[..n][i] == ts[i];
      ComponentsAreOwn(ts[..n], i);
    }
  }

  /** The linked-versions group of a tracked package. */
  ghost function PackageGroup(plugins: seq<Plugin>, ts: seq<Tracked>, name: string): Option<string> {
    if name in Components(ts) then GroupOf(Groups(plugins), Components(ts)[name]) else None
  }

  /** `a` ships with a dependency on tracked package `b`. */
  ghost predicate ShipEdge(ts: seq<Tracked>, a: string, b: string) {
    b in Components(ts) && exists i, f :: 0 <= i < |ts| && Usable(ts[i]) && NameOf(ts[i]) == a && b in DepsOf(ts[i], f)
  }

  /** A chain of ship-affecting edges, each in either direction. */
  ghost predicate IsChain(ts: seq<Tracked>, p: seq<string>) {
    |p| >= 2 && forall i :: 0 < i < |p| ==> ShipEdge(ts, p[i - 1], p[i]) || ShipEdge(ts, p[i], p[i - 1])
  }

  ghost predicate NoUnlinkedEdge(plugins: seq<Plugin>, ts: seq<Tracked>) {
    forall t, v :: t in ts ==> !IsUnlinked(Groups(plugins), Components(ts), t, v)
  }

  lemma {:induction false} EdgeIsLinked(plugins: seq<Plugin>, ts: seq<Tracked>, a: string, b: string)
    requires DistinctNames(ts) && NoUnlinkedEdge(plugins, ts) && ShipEdge(ts, a, b)
    ensures Linked(PackageGroup(plugins, ts, a), PackageGroup(plugins, ts, b))
  {
    var i, f :| 0 <= i < |ts| && Usable(ts[i]) && NameOf(ts[i]) == a && b in DepsOf(ts[i], f);
    ComponentsAreOwn(ts, i);
    var v := UnlinkedEdge(a, b, f, PackageGroup(plugins, ts, a), PackageGroup(plugins, ts, b));
    assert ts[i] in ts && !IsUnlinked(Groups(plugins), Components(ts), ts[i], v);
  }

  lemma {:induction false} ChainIsLinked(plugins: seq<Plugin>, ts: seq<Tracked>, p: seq<string>)
    requires DistinctNames(ts) && NoUnlinkedEdge(plugins, ts) && IsChain(ts, p)
    ensures Linked(PackageGroup(plugins, ts, p[0]), PackageGroup(plugins, ts, p[|p| - 1]))
  {
    var n := |p| - 1;
    if ShipEdge(ts, p[n - 1], p[n]) {
      EdgeIsLinked(plugins, ts, p[n - 1], p[n]);
    } else {
      EdgeIsLinked(plugins, ts, p[n], p[n - 1]);
    }
    if n > 1 {
      assert IsChain(ts, p[..n]) by {
        forall i | 0 < i < n ensures ShipEdge(ts, p[..n][i - 1], p[..n][i]) || ShipEdge(ts, p[..n][i], p[..n][i - 1]) {
          assert p[..n][i - 1] == p[i - 1] && p[..n][i] == p[i];
        }
      }
      ChainIsLinked(plugins, ts, p[..n]);
    }
  }

  /** There is no unlinked edge exactly when any two packages joined by a chain of ship-affecting edges, in
      either direction, have the same group name. */
  lemma {:induction false} LinkedIffChainsShareGroup(plugins: seq<Plugin>, ts: seq<Tracked>)
    requires DistinctNames(ts)
    ensures NoUnlinkedEdge(plugins, ts) <==>
      forall p :: IsChain(ts, p) ==> Linked(PackageGroup(plugins, ts, p[0]), PackageGroup(plugins, ts, p[|p| - 1]))
  {
    if NoUnlinkedEdge(plugins, ts) {
      forall p | IsChain(ts, p) ensures Linked(PackageGroup(plugins, ts, p[0]), PackageGroup(plugins, ts, p[|p| - 1])) {
        ChainIsLinked(plugins, ts, p);
      }
    } else {
      var t, v :| t in ts && IsUnlinked(Groups(plugins), Components(ts), t, v);
      var i :| 0 <= i < |ts| && ts[i] == t;
      ComponentsAreOwn(ts, i);
      assert ShipEdge(ts, v.from, v.to) by { assert v.to in DepsOf(ts[i], v.field); }
      var p := [v.from, v.to];
      assert IsChain(ts, p);
      assert !Linked(PackageGroup(plugins, ts, p[0]), PackageGroup(plugins, ts, p[1]));
    }
  }

  // ---------- groups are plugins ----------

  /** The plugin that decides the group of a component: the last one that names it. */
  function Decider(plugins: seq<Plugin>, c: string): (d: Option<nat>)
    ensures d.Some? ==> d.value < |plugins| && plugins[d.value].LinkedVersions? && c in plugins[d.value].components
  {
    if plugins == [] then None
    else
      var n := |plugins| - 1;
      if plugins[n].LinkedVersions? && c in plugins[n].components then Some(n) else Decider(plugins[..n], c)
  }

  /** The name that a component gets is the name of its deciding plugin. */
  lemma {:induction false} DeciderNames(plugins: seq<Plugin>, c: string)
    ensures var d := Decider(plugins, c);
      GroupOf(Groups(plugins), c) == if d.None? then None else Some(GroupName(plugins[d.value]))
  {
    if plugins != [] {
      var n := |plugins| - 1;
      DeciderNames(plugins[..n], c);
      if plugins[n].LinkedVersions? {
        AddedComponent(Groups(plugins[..n]), GroupName(plugins[n]), plugins[n].components, c);
      }
    }
  }

  /** The plugin that links a tracked package. */
  ghost function PackagePlugin(plugins: seq<Plugin>, ts: seq<Tracked>, name: string): Option<nat> {
    if name in Components(ts) then Decider(plugins, Components(ts)[name]) else None
  }

  /** Deciding plugins that carry the same name are the same plugin. */
  ghost predicate OnePluginPerName(plugins: seq<Plugin>) {
    forall c, d ::
      (var i, j := Decider(plugins, c), Decider(plugins, d);
       i.Some? && j.Some? && GroupName(plugins[i.value]) == GroupName(plugins[j.value]) ==> i == j)
  }

  ghost predicate ChainsSharePlugin(plugins: seq<Plugin>, ts: seq<Tracked>) {
    forall p :: IsChain(ts, p) ==>
      && PackagePlugin(plugins, ts, p[0]).Some?
      && PackagePlugin(plugins, ts, p[0]) == PackagePlugin(plugins, ts, p[|p| - 1])
  }

  lemma {:induction false} LinkedChainsSharePlugin(plugins: seq<Plugin>, ts: seq<Tracked>)
    requires DistinctNames(ts) && NoUnlinkedEdge(plugins, ts) && OnePluginPerName(plugins)
    ensures ChainsSharePlugin(plugins, ts)
  {
    forall p | IsChain(ts, p)
      ensures PackagePlugin(plugins, ts, p[0]).Some?
      ensures PackagePlugin(plugins, ts, p[0]) == PackagePlugin(plugins, ts, p[|p| - 1])
    {
      ChainIsLinked(plugins, ts, p);
      DeciderNames(plugins, Components(ts)[p[0]]);
      DeciderNames(plugins, Components(ts)[p[|p| - 1]]);
    }
  }

  /** Package "x" with component `c` depends on package "y" with component `d`. */
  function TwoPackages(c: string, d: string): seq<Tracked> {
    [Tracked("packages/x", Some(c), Some(PackageJson(Some("x"), ["y"], [], []))),
     Tracked("packages/y", Some(d), Some(PackageJson(Some("y"), [], [], [])))]
  }

  lemma {:induction false} TwoComponents(c: string, d: string)
    ensures Components(TwoPackages(c, d)) == map["x" := c, "y" := d]
  {
    var ts := TwoPackages(c, d);
    assert ts[..1] == [ts[0]] && [ts[0]][..0] == [];
    assert Components([ts[0]]) == map["x" := c];
  }

  /** The check passes two packages whose deciding plugins only share their name. */
  lemma {:induction false} SharedNamePasses(plugins: seq<Plugin>, c: string, d: string)
    requires Linked(GroupOf(Groups(plugins), c), GroupOf(Groups(plugins), d))
    ensures DistinctNames(TwoPackages(c, d)) && NoUnlinkedEdge(plugins, TwoPackages(c, d))
    ensures ChainsSharePlugin(plugins, TwoPackages(c, d)) ==> Decider(plugins, c) == Decider(plugins, d)
  {
    var ts := TwoPackages(c, d);
    TwoComponents(c, d);
    assert "x" != "y";
    assert "y" in DepsOf(ts[0], Dependencies);
    assert ShipEdge(ts, "x", "y");
    var p := ["x", "y"];
    assert IsChain(ts, p) && p[0] == "x" && p[|p| - 1] == "y";
  }

  lemma {:induction false} FindSharedName(plugins: seq<Plugin>) returns (c: string, d: string)
    requires !OnePluginPerName(plugins)
    ensures Linked(GroupOf(Groups(plugins), c), GroupOf(Groups(plugins), d))
    ensures Decider(plugins, c) != Decider(plugins, d)
  {
    c, d :| Decider(plugins, c).Some? && Decider(plugins, d).Some? && Decider(plugins, c) != Decider(plugins, d)
      && GroupName(plugins[Decider(plugins, c).value]) == GroupName(plugins[Decider(plugins, d).value]);
    DeciderNames(plugins, c);
    DeciderNames(plugins, d);
  }

  ghost predicate PassingMeansOnePlugin(plugins: seq<Plugin>, ts: seq<Tracked>) {
    DistinctNames(ts) && NoUnlinkedEdge(plugins, ts) ==> ChainsSharePlugin(plugins, ts)
  }

  /** Whatever packages are tracked, a configuration without unlinked edges puts each chain under one plugin,
      exactly when deciding plugins that carry the same name are the same plugin. */
  lemma {:induction false} LinkedMeansOnePluginIff(plugins: seq<Plugin>)
    ensures (forall ts :: PassingMeansOnePlugin(plugins, ts)) <==> OnePluginPerName(plugins)
  {
    if OnePluginPerName(plugins) {
      forall ts ensures PassingMeansOnePlugin(plugins, ts) {
        if DistinctNames(ts) && NoUnlinkedEdge(plugins, ts) { LinkedChainsSharePlugin(plugins, ts); }
      }
    } else {
      var c, d := FindSharedName(plugins);
      SharedNamePasses(plugins, c, d);
      assert !PassingMeansOnePlugin(plugins, TwoPackages(c, d));
    }
  }

  /** Two plugins without a name: the check passes, and the packages are in two groups. */
  lemma {:induction false} TwoUnnamedPlugins()
    ensures var plugins := [LinkedVersions(None, ["a"]), LinkedVersions(None, ["b"])];
      NoUnlinkedEdge(plugins, TwoPackages("a", "b")) && !ChainsSharePlugin(plugins, TwoPackages("a", "b"))
  {
    var first, second := LinkedVersions(None, ["a"]), LinkedVersions(None, ["b"]);
    var plugins := [first, second];
    assert plugins[..1] == [first] && "a" != "b";
    assert Decider([first], "a") == Some(0) && Decider(plugins, "a") == Some(0) && Decider(plugins, "b") == Some(1);
    DeciderNames(plugins, "a");
    DeciderNames(plugins, "b");
    SharedNamePasses(plugins, "a", "b");
  }
}
