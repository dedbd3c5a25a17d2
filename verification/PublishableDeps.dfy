/** A published package must not depend on an unpublishable one (scripts/check-publishable-deps.ts). */
module PublishableDeps {
  import opened Text

  datatype Dependency = Dependency(name: string, range: string)

  /** `name` is None or empty for a manifest without one. */
  datatype Manifest = Manifest(name: Option<string>, isPrivate: bool, dependencies: seq<Dependency>)

  datatype Reason = MarkedPrivate | NotPublished | NotRegistered
  datatype Violation = Violation(publishedPackage: string, dependency: string, range: string, reason: Reason)

  predicate Named(m: Manifest) { m.name.Some? && m.name.value != "" }

  ghost predicate IsWorkspace(ms: seq<Manifest>, name: string) {
    name != "" && exists m :: m in ms && m.name == Some(name)
  }

  ghost predicate IsPrivate(ms: seq<Manifest>, name: string) {
    exists m :: m in ms && m.isPrivate && m.name == Some(name)
  }

  /** Why a workspace dependency cannot be installed, if it cannot: the first reason that applies. */
  function WhyNot(isPrivate: bool, isPublished: bool, isRegistered: bool): Option<Reason> {
    if isPrivate then Some(MarkedPrivate)
    else if !isPublished then Some(NotPublished)
    else if !isRegistered then Some(NotRegistered)
    else None
  }

  ghost function ReasonFor(ms: seq<Manifest>, published: set<string>, registered: set<string>, dep: string)
    : Option<Reason>
  {
    WhyNot(IsPrivate(ms, dep), dep in published, dep in registered)
  }

  ghost predicate ViolatesIn(ms: seq<Manifest>, published: set<string>, registered: set<string>, m: Manifest,
          v: Violation)
  {
    && m.name == Some(v.publishedPackage) && v.publishedPackage != "" && v.publishedPackage in published
    && Dependency(v.dependency, v.range) in m.dependencies && IsWorkspace(ms, v.dependency)
    && match v.reason
       case MarkedPrivate => IsPrivate(ms, v.dependency)
       case NotPublished => !IsPrivate(ms, v.dependency) && v.dependency !in published
       case NotRegistered =>
         !IsPrivate(ms, v.dependency) && v.dependency in published && v.dependency !in registered
  }

  method NameSets(ms: seq<Manifest>) returns (workspaceNames: set<string>, privateNames: set<string>)
    ensures forall n :: n in workspaceNames <==> IsWorkspace(ms, n)
    ensures forall n :: n in privateNames <==> IsPrivate(ms, n)
  {
    workspaceNames := set m | m in ms && Named(m) :: m.name.value;
    privateNames := set m | m in ms && m.isPrivate && m.name.Some? :: m.name.value;
  }

  /** What the report says about one dependency of a published package. */
  ghost function DependencyFinding(ms: seq<Manifest>, published: set<string>, registered: set<string>, name: string,
          d: Dependency): seq<Violation>
  {
    var why := ReasonFor(ms, published, registered, d.name);
    if IsWorkspace(ms, d.name) && why.Some? then [Violation(name, d.name, d.range, why.value)] else []
  }

  ghost function DependencyFindings(ms: seq<Manifest>, published: set<string>, registered: set<string>, name: string,
          ds: seq<Dependency>): seq<Violation>
  {
    if ds == [] then []
    else
      var n := |ds| - 1;
      DependencyFindings(ms, published, registered, name, ds[..n])
      + DependencyFinding(ms, published, registered, name, ds[n])
  }

  ghost function ManifestFindings(ms: seq<Manifest>, published: set<string>, registered: set<string>, m: Manifest)
    : seq<Violation>
  {
    if !Named(m) || m.name.value !in published then []
    else DependencyFindings(ms, published, registered, m.name.value, m.dependencies)
  }

  /** The report over the manifests `some` of `ms`: manifests and their dependencies in order, each once. */
  ghost function Findings(ms: seq<Manifest>, published: set<string>, registered: set<string>, some: seq<Manifest>)
    : seq<Violation>
  {
    if some == [] then []
    else
      var n := |some| - 1;
      Findings(ms, published, registered, some[..n]) + ManifestFindings(ms, published, registered, some[n])
  }

  /** The inner loop: the violations of one published package. */
  method CheckDependencies(ghost ms: seq<Manifest>, name: string, dependencies: seq<Dependency>,
          workspaceNames: set<string>, privateNames: set<string>, published: set<string>, registered: set<string>)
    returns (violations: seq<Violation>)
    requires forall n :: n in workspaceNames <==> IsWorkspace(ms, n)
    requires forall n :: n in privateNames <==> IsPrivate(ms, n)
    ensures violations == DependencyFindings(ms, published, registered, name, dependencies)
  {
    violations := [];
    for i := 0 to |dependencies|
      invariant violations == DependencyFindings(ms, published, registered, name, dependencies[..i])
    {
      var d := dependencies[i];
      assert dependencies[..i + 1][..i] == dependencies[..i];
      if d.name !in workspaceNames { continue; }
      if d.name in privateNames {
        violations := violations + [Violation(name, d.name, d.range, MarkedPrivate)];
        continue;
      }
      if d.name !in published {
        violations := violations + [Violation(name, d.name, d.range, NotPublished)];
        continue;
      }
      if d.name !in registered {
        violations := violations + [Violation(name, d.name, d.range, NotRegistered)];
      }
    }
    assert dependencies[..|dependencies|] == dependencies;
  }

  /** The violations are exactly the uninstallable workspace dependencies of published packages, in order. */
  method FindPublishableDepViolations(ms: seq<Manifest>, published: set<string>, registered: set<string>)
    returns (violations: seq<Violation>)
    ensures violations == Findings(ms, published, registered, ms)
    ensures forall v :: v in violations <==> exists m :: m in ms && ViolatesIn(ms, published, registered, m, v)
  {
    var workspaceNames, privateNames := NameSets(ms);
    violations := [];
    for i := 0 to |ms|
      invariant violations == Findings(ms, published, registered, ms[..i])
    {
      var m := ms[i];
      assert ms[..i + 1][..i] == ms[..i];
      if !Named(m) || m.name.value !in published { continue; }
      var found := CheckDependencies(
        ms, m.name.value, m.dependencies, workspaceNames, privateNames, published, registered);
      violations := violations + found;
    }
    assert ms[..|ms|] == ms;
    forall v ensures v in violations <==> exists m :: m in ms && ViolatesIn(ms, published, registered, m, v) {
      FindingsAre(ms, published, registered, ms, v);
    }
  }

  lemma {:induction false} DependencyFindingsAre(ms: seq<Manifest>, published: set<string>, registered: set<string>,
          name: string, ds: seq<Dependency>, v: Violation)
    ensures v in DependencyFindings(ms, published, registered, name, ds) <==>
      && v.publishedPackage == name && Dependency(v.dependency, v.range) in ds && IsWorkspace(ms, v.dependency)
      && ReasonFor(ms, published, registered, v.dependency) == Some(v.reason)
  {
    if ds != [] {
      var n := |ds| - 1;
      assert ds == ds[..n] + [ds[n]];
      DependencyFindingsAre(ms, published, registered, name, ds[..n], v);
    }
  }

  lemma {:induction false} ManifestFindingsAre(ms: seq<Manifest>, published: set<string>, registered: set<string>,
          m: Manifest, v: Violation)
    ensures v in ManifestFindings(ms, published, registered, m) <==> ViolatesIn(ms, published, registered, m, v)
  {
    if Named(m) { DependencyFindingsAre(ms, published, registered, m.name.value, m.dependencies, v); }
  }

  lemma {:induction false} FindingsAre(ms: seq<Manifest>, published: set<string>, registered: set<string>,
          some: seq<Manifest>, v: Violation)
    ensures v in Findings(ms, published, registered, some) <==>
      exists m :: m in some && ViolatesIn(ms, published, registered, m, v)
  {
    if some != [] {
      var n := |some| - 1;
      assert some == some[..n] + [some[n]];
      FindingsAre(ms, published, registered, some[..n], v);
      ManifestFindingsAre(ms, published, registered, some[n], v);
    }
  }

  // ---------- from edges to chains ----------

  /** A runtime dependency of one workspace package on another. */
  ghost predicate Edge(ms: seq<Manifest>, a: string, b: string) {
    exists m, d :: m in ms && Named(m) && m.name.value == a && d in m.dependencies && d.name == b && IsWorkspace(ms, b)
  }

  /** A chain of at least one runtime dependency. */
  ghost predicate IsChain(ms: seq<Manifest>, p: seq<string>) {
    |p| >= 2 && forall i :: 0 < i < |p| ==> Edge(ms, p[i - 1], p[i])
  }

  ghost predicate Installable(ms: seq<Manifest>, published: set<string>, registered: set<string>, name: string) {
    !IsPrivate(ms, name) && name in published && name in registered
  }

  ghost predicate NoViolations(ms: seq<Manifest>, published: set<string>, registered: set<string>) {
    forall m, v :: m in ms ==> !ViolatesIn(ms, published, registered, m, v)
  }

  lemma {:induction false} CleanEdge(ms: seq<Manifest>, published: set<string>, registered: set<string>, a: string,
          b: string)
    requires NoViolations(ms, published, registered) && a in published && Edge(ms, a, b)
    ensures Installable(ms, published, registered, b)
  {
    var m, d :| m in ms && Named(m) && m.name.value == a && d in m.dependencies && d.name == b && IsWorkspace(ms, b);
    var why := ReasonFor(ms, published, registered, b);
    if why.Some? {
      var v := Violation(a, b, d.range, why.value);
      assert d == Dependency(v.dependency, v.range);
      assert ViolatesIn(ms, published, registered, m, v);
    }
  }

  lemma {:induction false} CleanChain(ms: seq<Manifest>, published: set<string>, registered: set<string>,
          p: seq<string>)
    requires NoViolations(ms, published, registered) && IsChain(ms, p) && p[0] in published
    ensures Installable(ms, published, registered, p[|p| - 1])
  {
    var n := |p| - 1;
    assert Edge(ms, p[n - 1], p[n]);
    if n > 1 {
      forall i | 0 < i < n ensures Edge(ms, p[..n][i - 1], p[..n][i]) {
        assert Edge(ms, p[i - 1], p[i]);
      }
      CleanChain(ms, published, registered, p[..n]);
    }
    CleanEdge(ms, published, registered, p[n - 1], p[n]);
  }

  /** The check finds nothing exactly when everything a published package pulls in, through any chain of
      runtime dependencies, can be installed. */
  lemma {:induction false} CleanIffChainsInstall(ms: seq<Manifest>, published: set<string>, registered: set<string>)
    ensures NoViolations(ms, published, registered) <==>
      forall p :: IsChain(ms, p) && p[0] in published ==> Installable(ms, published, registered, p[|p| - 1])
  {
    if NoViolations(ms, published, registered) {
      forall p | IsChain(ms, p) && p[0] in published ensures Installable(ms, published, registered, p[|p| - 1]) {
        CleanChain(ms, published, registered, p);
      }
    } else {
      var m, v :| m in ms && ViolatesIn(ms, published, registered, m, v);
      var d := Dependency(v.dependency, v.range);
      assert d in m.dependencies && d.name == v.dependency;
      assert Edge(ms, v.publishedPackage, v.dependency);
      var p := [v.publishedPackage, v.dependency];
      assert IsChain(ms, p) && !Installable(ms, published, registered, p[1]);
    }
  }
}
