/** The worklist loops of the repository's wiring checks. Regular expressions over script bodies and sources
    are functions from text to the names they find. */
module Worklists {
  import opened Reachability
  import opened Sequences

  type Scripts = map<string, string>

  // ---------- scripts/check-checkers-wired.ts ----------

  /** The lifecycle hooks of a script. */
  function Hooks(name: string): seq<string> {
    ["pre" + name, "post" + name]
  }

  /** What one npm script runs: its unscoped `npm run` references, and its defined pre and post hooks. */
  function NpmNext(scripts: Scripts, refs: string -> seq<string>): Graph {
    (name: string) =>
      if name !in scripts then {}
      else (set r | r in refs(scripts[name])) + (set h | h in Hooks(name) && h in scripts)
  }

  /** Every name that can ever be queued. */
  function Universe(scripts: Scripts, refs: string -> seq<string>, root: string): set<string> {
    {root} + scripts.Keys + set n, r | n in scripts && r in refs(scripts[n]) :: r
  }

  lemma {:induction false} NextInUniverse(scripts: Scripts, refs: string -> seq<string>, root: string, name: string)
    ensures NpmNext(scripts, refs)(name) <= Universe(scripts, refs, root)
  {
  }

  /** The loop invariant of a worklist: what is seen or queued is reachable, and the frontier is in the queue. */
  ghost predicate Exploring(succ: Graph, root: string, seen: set<string>, queue: seq<string>) {
    && (root in seen || root in queue)
    && (forall x :: x in seen ==> Reachable(succ, {root}, x))
    && (forall x :: x in queue ==> Reachable(succ, {root}, x))
    && (forall x, y :: x in seen && y in succ(x) ==> y in seen || y in queue)
  }

  lemma {:induction false} ExploredIsReachable(succ: Graph, root: string, seen: set<string>, x: string)
    requires Exploring(succ, root, seen, [])
    ensures x in seen <==> Reachable(succ, {root}, x)
  {
    if Reachable(succ, {root}, x) { ReachableIsLeast(succ, {root}, seen, x); }
  }

  /** Taking the head of the queue: already seen names are dropped, new ones bring their successors. */
  lemma {:induction false} ExploreStep(succ: Graph, root: string, seen: set<string>, queue: seq<string>,
          more: seq<string>)
    requires queue != [] && Exploring(succ, root, seen, queue)
    requires forall y :: y in more ==> y in succ(queue[0])
    requires forall y :: y in succ(queue[0]) ==> y in seen + {queue[0]} || y in more
    ensures Exploring(succ, root, seen + {queue[0]}, queue[1..] + more)
  {
    var name := queue[0];
    assert name in queue;
    forall y | y in more ensures Reachable(succ, {root}, y) { SuccessorIsReachable(succ, {root}, name, y); }
    forall x | x in queue ensures x == name || x in queue[1..] { assert queue == [name] + queue[1..]; }
  }

  lemma {:induction false} DropSeen(succ: Graph, root: string, seen: set<string>, queue: seq<string>)
    requires queue != [] && Exploring(succ, root, seen, queue) && queue[0] in seen
    ensures Exploring(succ, root, seen, queue[1..])
  {
    forall x | x in queue ensures x == queue[0] || x in queue[1..] { assert queue == [queue[0]] + queue[1..]; }
  }

  lemma {:induction false} SeenShrinksTheRest(universe: set<string>, seen: set<string>, name: string)
    requires name in universe && name !in seen
    ensures |universe - (seen + {name})| < |universe - seen|
  {
    assert universe - (seen + {name}) == (universe - seen) - {name};
  }

  /** A set that has the root and, with each script, what it references and its two defined hooks. */
  ghost predicate IsNpmClosed(scripts: Scripts, refs: string -> seq<string>, root: string, s: set<string>) {
    && root in s
    && (forall x, r :: x in s && x in scripts && r in refs(scripts[x]) ==> r in s)
    && (forall x :: x in s && x in scripts && "pre" + x in scripts ==> "pre" + x in s)
    && (forall x :: x in s && x in scripts && "post" + x in scripts ==> "post" + x in s)
  }

  lemma {:induction false} NpmClosedIff(scripts: Scripts, refs: string -> seq<string>, root: string, s: set<string>)
    ensures IsNpmClosed(scripts, refs, root, s) <==> root in s && Closed(NpmNext(scripts, refs), s)
  {
    if Closed(NpmNext(scripts, refs), s) {
      forall x, y | x in s && y in NpmNext(scripts, refs)(x) ensures y in s { }
      forall x | x in s && x in scripts ensures Hooks(x)[0] == "pre" + x && Hooks(x)[1] == "post" + x { }
      forall x, r | x in s && x in scripts && r in refs(scripts[x]) ensures r in s {
        assert r in NpmNext(scripts, refs)(x);
      }
      forall x | x in s && x in scripts && "pre" + x in scripts ensures "pre" + x in s {
        assert Hooks(x)[0] in NpmNext(scripts, refs)(x);
      }
      forall x | x in s && x in scripts && "post" + x in scripts ensures "post" + x in s {
        assert Hooks(x)[1] in NpmNext(scripts, refs)(x);
      }
    }
  }

  lemma {:induction false} NpmScriptsAreLeast(scripts: Scripts, refs: string -> seq<string>, root: string,
          seen: set<string>)
    requires forall x :: x in seen <==> Reachable(NpmNext(scripts, refs), {root}, x)
    ensures IsNpmClosed(scripts, refs, root, seen)
    ensures forall s :: IsNpmClosed(scripts, refs, root, s) ==> seen <= s
  {
    NpmClosedIff(scripts, refs, root, seen);
    ReachedIsLeastClosed(NpmNext(scripts, refs), {root}, seen, seen);
    forall s | IsNpmClosed(scripts, refs, root, s) ensures seen <= s {
      NpmClosedIff(scripts, refs, root, s);
      ReachedIsLeastClosed(NpmNext(scripts, refs), {root}, seen, s);
    }
  }

  /** Exactly the npm scripts reachable from the root, cyclic references included: the least set that has the root
      and, with each script, what it references and its hooks. */
  method ReachableNpmScripts(scripts: Scripts, refs: string -> seq<string>, root: string) returns (seen: set<string>)
    ensures forall x :: x in seen <==> Reachable(NpmNext(scripts, refs), {root}, x)
    ensures IsNpmClosed(scripts, refs, root, seen)
    ensures forall s :: IsNpmClosed(scripts, refs, root, s) ==> seen <= s
  {
    ghost var succ, universe := NpmNext(scripts, refs), Universe(scripts, refs, root);
    seen := {};
    var queue := [root];
    RootIsReachable(succ, {root}, root);
    while queue != []
      invariant Exploring(succ, root, seen, queue)
      invariant forall x :: x in queue ==> x in universe
      decreases |universe - seen|, |queue|
    {
      var name := queue[0];
      assert name in queue;
      if name in seen {
        DropSeen(succ, root, seen, queue);
        queue := queue[1..];
        continue;
      }
      ghost var before := seen;
      seen := seen + {name};
      var more := [];
      if name in scripts { more := UnseenNext(scripts, refs, name, seen); }
      NextInUniverse(scripts, refs, root, name);
      ExploreStep(succ, root, before, queue, more);
      SeenShrinksTheRest(universe, before, name);
      queue := queue[1..] + more;
    }
    forall x ensures x in seen <==> Reachable(succ, {root}, x) { ExploredIsReachable(succ, root, seen, x); }
    NpmScriptsAreLeast(scripts, refs, root, seen);
  }

  /** The two inner loops: references, then hooks, each queued unless already seen. */
  method UnseenNext(scripts: Scripts, refs: string -> seq<string>, name: string, seen: set<string>)
    returns (more: seq<string>)
    requires name in scripts
    ensures forall y :: y in more <==> y in NpmNext(scripts, refs)(name) && y !in seen
  {
    more := [];
    var found := refs(scripts[name]);
    for i := 0 to |found|
      invariant forall y :: y in more <==> y in found[..i] && y !in seen
    {
      if found[i] !in seen { more := more + [found[i]]; }
    }
    assert found[..|found|] == found;
    ghost var referenced := more;
    for i := 0 to 2
      invariant forall y :: y in more <==> y in referenced || (y in Hooks(name)[..i] && y in scripts && y !in seen)
    {
      var hook := Hooks(name)[i];
      assert Hooks(name)[..i + 1] == Hooks(name)[..i] + [hook];
      if hook in scripts && hook !in seen { more := more + [hook]; }
    }
    assert Hooks(name)[..2] == Hooks(name);
  }

  // ---------- scripts/check-typecheck-coverage.ts ----------

  /** A workspace that declares a typecheck script; `bare` is its name without the scope. */
  datatype Workspace = Workspace(name: string, bare: string, dir: string)

  /** The root scripts a script invokes; the empty name is skipped before it is looked up. */
  function RootNext(scripts: Scripts, refs: string -> seq<string>): Graph {
    (name: string) => if name == "" || name !in scripts then {} else set r | r in refs(scripts[name])
  }

  /** Some script reachable from the entry covers the alias, directly or through `tsc -p`. */
  ghost predicate Covered(scripts: Scripts, refs: string -> seq<string>, covers: string -> seq<string>, entry: string,
          what: string)
  {
    exists n :: Reachable(RootNext(scripts, refs), {entry}, n) && n != "" && n in scripts && what in covers(scripts[n])
  }

  /** A set that has the entry and what each of its scripts invokes; the empty name invokes nothing. */
  ghost predicate IsRootClosed(scripts: Scripts, refs: string -> seq<string>, entry: string, s: set<string>) {
    entry in s && forall x, r :: x in s && x != "" && x in scripts && r in refs(scripts[x]) ==> r in s
  }

  lemma {:induction false} RootClosedIff(scripts: Scripts, refs: string -> seq<string>, entry: string, s: set<string>)
    ensures IsRootClosed(scripts, refs, entry, s) <==> entry in s && Closed(RootNext(scripts, refs), s)
  {
    if Closed(RootNext(scripts, refs), s) {
      forall x, r | x in s && x != "" && x in scripts && r in refs(scripts[x]) ensures r in s {
        assert r in RootNext(scripts, refs)(x);
      }
    }
  }

  /** The aliases that the scripts of the least such set cover. */
  ghost predicate CoveredByLeast(scripts: Scripts, refs: string -> seq<string>, covers: string -> seq<string>,
          entry: string, least: set<string>, covered: set<string>)
  {
    && IsRootClosed(scripts, refs, entry, least)
    && (forall s :: IsRootClosed(scripts, refs, entry, s) ==> least <= s)
    && IsCoverage(scripts, covers, least, covered)
  }

  lemma {:induction false} RootScriptsAreLeast(scripts: Scripts, refs: string -> seq<string>, entry: string,
          seen: set<string>)
    requires forall x :: x in seen <==> Reachable(RootNext(scripts, refs), {entry}, x)
    ensures IsRootClosed(scripts, refs, entry, seen)
    ensures forall s :: IsRootClosed(scripts, refs, entry, s) ==> seen <= s
  {
    RootClosedIff(scripts, refs, entry, seen);
    ReachedIsLeastClosed(RootNext(scripts, refs), {entry}, seen, seen);
    forall s | IsRootClosed(scripts, refs, entry, s) ensures seen <= s {
      RootClosedIff(scripts, refs, entry, s);
      ReachedIsLeastClosed(RootNext(scripts, refs), {entry}, seen, s);
    }
  }

  ghost predicate IsGap(scripts: Scripts, refs: string -> seq<string>, covers: string -> seq<string>, entry: string,
          w: Workspace)
  {
    && !Covered(scripts, refs, covers, entry, w.name)
    && !Covered(scripts, refs, covers, entry, w.bare)
    && !Covered(scripts, refs, covers, entry, w.dir)
  }

  /** `covered` is what the scripts in `seen` cover. */
  ghost predicate IsCoverage(scripts: Scripts, covers: string -> seq<string>, seen: set<string>, covered: set<string>) {
    && (forall n, a :: n in seen && n != "" && n in scripts && a in covers(scripts[n]) ==> a in covered)
    && (forall a :: a in covered ==> exists n :: n in seen && n != "" && n in scripts && a in covers(scripts[n]))
  }

  lemma {:induction false} CoverageIsCovered(scripts: Scripts, refs: string -> seq<string>,
          covers: string -> seq<string>, entry: string, seen: set<string>, covered: set<string>)
    requires forall x :: x in seen <==> Reachable(RootNext(scripts, refs), {entry}, x)
    requires IsCoverage(scripts, covers, seen, covered)
    ensures forall a :: a in covered <==> Covered(scripts, refs, covers, entry, a)
  {
  }

  /** Every name that can ever be queued. */
  ghost predicate Encloses(scripts: Scripts, refs: string -> seq<string>, entry: string, universe: set<string>) {
    entry in universe && forall n, r :: n in scripts && r in refs(scripts[n]) ==> r in universe
  }

  lemma {:induction false} SomethingEncloses(scripts: Scripts, refs: string -> seq<string>, entry: string)
    returns (universe: set<string>)
    ensures Encloses(scripts, refs, entry, universe)
  {
    universe := {entry} + set n, r | n in scripts && r in refs(scripts[n]) :: r;
  }

  /** What taking `name` from the queue adds to it: nothing for an empty, repeated or undefined name. */
  function Pushed(scripts: Scripts, refs: string -> seq<string>, seen: set<string>, name: string): seq<string> {
    if name == "" || name in seen || name !in scripts then [] else refs(scripts[name])
  }

  lemma {:induction false} CoverStep(scripts: Scripts, refs: string -> seq<string>, entry: string,
          explored: set<string>, queue: seq<string>)
    requires queue != [] && Exploring(RootNext(scripts, refs), entry, explored, queue)
    ensures var rest := queue[1..] + Pushed(scripts, refs, explored, queue[0]);
      Exploring(RootNext(scripts, refs), entry, explored + {queue[0]}, rest)
  {
    var succ, name := RootNext(scripts, refs), queue[0];
    if name in explored {
      DropSeen(succ, entry, explored, queue);
      assert explored + {name} == explored && queue[1..] + [] == queue[1..];
    } else {
      ExploreStep(succ, entry, explored, queue, Pushed(scripts, refs, explored, name));
    }
  }

  lemma {:induction false} QueueStaysInUniverse(scripts: Scripts, refs: string -> seq<string>, entry: string,
          universe: set<string>, explored: set<string>, queue: seq<string>)
    requires queue != [] && Encloses(scripts, refs, entry, universe) && forall x :: x in queue ==> x in universe
    ensures forall x :: x in queue[1..] + Pushed(scripts, refs, explored, queue[0]) ==> x in universe
    ensures queue[0] in explored ==> universe - (explored + {queue[0]}) == universe - explored
    ensures queue[0] !in explored ==> |universe - (explored + {queue[0]})| < |universe - explored|
  {
    assert queue[0] in queue;
    if queue[0] !in explored { SeenShrinksTheRest(universe, explored, queue[0]); }
  }

  /** One turn of the loop: what the name at the head covers, and what it pushes. */
  method VisitScript(scripts: Scripts, refs: string -> seq<string>, covers: string -> seq<string>, name: string,
          seen0: set<string>, covered0: set<string>, ghost explored: set<string>)
    returns (seen: set<string>, covered: set<string>, pushed: seq<string>)
    requires seen0 == explored - {""} && IsCoverage(scripts, covers, explored, covered0)
    ensures seen == explored + {name} - {""} && IsCoverage(scripts, covers, explored + {name}, covered)
    ensures pushed == Pushed(scripts, refs, explored, name)
  {
    seen, covered, pushed := seen0, covered0, [];
    if name == "" || name in seen { return; }
    seen := seen + {name};
    if name !in scripts { return; }
    covered := covered + set a | a in covers(scripts[name]);
    pushed := refs(scripts[name]);
  }

  /** The worklist: everything covered by a script reachable from the entry. */
  method CollectCoverage(scripts: Scripts, refs: string -> seq<string>, covers: string -> seq<string>, entry: string)
    returns (covered: set<string>)
    ensures forall a :: a in covered <==> Covered(scripts, refs, covers, entry, a)
    ensures exists least :: CoveredByLeast(scripts, refs, covers, entry, least, covered)
  {
    ghost var succ := RootNext(scripts, refs);
    ghost var universe := SomethingEncloses(scripts, refs, entry);
    covered := {};
    var seen: set<string> := {};
    ghost var explored: set<string> := {};
    var queue := [entry];
    RootIsReachable(succ, {entry}, entry);
    while queue != []
      invariant Exploring(succ, entry, explored, queue) && seen == explored - {""}
      invariant forall x :: x in queue ==> x in universe
      invariant IsCoverage(scripts, covers, explored, covered)
      decreases |universe - explored|, |queue|
    {
      var name := queue[0];
      CoverStep(scripts, refs, entry, explored, queue);
      QueueStaysInUniverse(scripts, refs, entry, universe, explored, queue);
      var pushed;
      seen, covered, pushed := VisitScript(scripts, refs, covers, name, seen, covered, explored);
      explored := explored + {name};
      queue := queue[1..] + pushed;
    }
    forall x ensures x in explored <==> Reachable(succ, {entry}, x) { ExploredIsReachable(succ, entry, explored, x); }
    CoverageIsCovered(scripts, refs, covers, entry, explored, covered);
    RootScriptsAreLeast(scripts, refs, entry, explored);
    assert CoveredByLeast(scripts, refs, covers, entry, explored, covered);
  }

  ghost function GapTest(scripts: Scripts, refs: string -> seq<string>, covers: string -> seq<string>, entry: string)
    : Workspace -> bool
  {
    (w: Workspace) => IsGap(scripts, refs, covers, entry, w)
  }

  function Uncovered(covered: set<string>): Workspace -> bool {
    (w: Workspace) => w.name !in covered && w.bare !in covered && w.dir !in covered
  }

  function NameOf(): Workspace -> string { (w: Workspace) => w.name }

  /** The gaps are exactly the workspaces that no reachable script covers under any alias, in their own order. */
  method FindTypecheckGaps(scripts: Scripts, refs: string -> seq<string>, covers: string -> seq<string>,
          workspaces: seq<Workspace>, entry: string)
    returns (gaps: seq<string>)
    ensures gaps == Map(NameOf(), Filter(GapTest(scripts, refs, covers, entry), workspaces))
  {
    var covered := CollectCoverage(scripts, refs, covers, entry);
    FilterCongruence(Uncovered(covered), GapTest(scripts, refs, covers, entry), workspaces);
    gaps := Map(NameOf(), Filter(Uncovered(covered), workspaces));
  }

  lemma {:induction false} FilterCongruence<X(!new)>(p: X -> bool, q: X -> bool, xs: seq<X>)
    requires forall x :: p(x) == q(x)
    ensures Filter(p, xs) == Filter(q, xs)
  {
    if xs != [] { FilterCongruence(p, q, xs[1..]); }
  }

  // ---------- closure in scripts/gen-contract-api-schemas.ts ----------

  datatype Block = Block(name: string, source: string)

  function ByName(blocks: seq<Block>): map<string, Block> {
    if blocks == [] then map[] else ByName(blocks[..|blocks| - 1])[blocks[|blocks| - 1].name := blocks[|blocks| - 1]]
  }

  lemma {:induction false} ByNameKeys(blocks: seq<Block>)
    ensures forall x :: x in ByName(blocks) <==> exists i :: 0 <= i < |blocks| && blocks[i].name == x
    ensures forall x :: x in ByName(blocks) ==> ByName(blocks)[x].name == x
  {
    if blocks != [] {
      var n := |blocks| - 1;
      ByNameKeys(blocks[..n]);
      forall x ensures x in ByName(blocks) <==> exists i :: 0 <= i < |blocks| && blocks[i].name == x {
        if x in ByName(blocks[..n]) {
          var i :| 0 <= i < n && blocks[..n][i].name == x;
          assert blocks[i].name == x;
        }
        if i :| 0 <= i < |blocks| && blocks[i].name == x { assert i < n ==> blocks[..n][i].name == x; }
        if x == blocks[n].name { assert blocks[n].name == x; }
      }
    }
  }

  /** The declared names a block mentions, other than its own. */
  function Dependencies(byName: map<string, Block>, words: string -> seq<string>): Graph {
    (name: string) =>
      if name !in byName then {} else set d | d in words(byName[name].source) && d != name && d in byName
  }

  function KnownRoots(byName: map<string, Block>, roots: seq<string>): set<string> {
    set r | r in roots && r in byName
  }

  /** The invariant of the depth-first worklist, where names are marked when they are queued. */
  ghost predicate Marking(succ: Graph, roots: set<string>, reached: set<string>, queue: seq<string>) {
    && roots <= reached
    && (forall x :: x in queue ==> x in reached)
    && (forall x :: x in reached ==> Reachable(succ, roots, x))
    && (forall x :: x in reached && x !in queue ==> succ(x) <= reached)
  }

  /** `new Set(roots.filter(...))` and the queue spread from it. */
  method StartFrom(byName: map<string, Block>, roots: seq<string>) returns (queue: seq<string>, reached: set<string>)
    ensures reached == KnownRoots(byName, roots) && forall x :: x in queue <==> x in reached
  {
    queue, reached := [], {};
    for i := 0 to |roots|
      invariant reached == KnownRoots(byName, roots[..i])
      invariant forall x :: x in queue <==> x in reached
    {
      if roots[i] in byName && roots[i] !in reached { reached, queue := reached + {roots[i]}, queue + [roots[i]]; }
    }
    assert roots[..|roots|] == roots;
  }

  /** The depth-first loop, from any marked start. */
  method Drain(byName: map<string, Block>, words: string -> seq<string>, queue0: seq<string>, reached0: set<string>)
    returns (reached: set<string>)
    requires (forall x :: x in byName ==> byName[x].name == x) && reached0 <= byName.Keys
    requires forall x :: x in queue0 <==> x in reached0
    ensures forall x :: x in reached <==> Reachable(Dependencies(byName, words), reached0, x)
  {
    ghost var succ := Dependencies(byName, words);
    var queue := queue0;
    reached := reached0;
    forall x | x in reached0 ensures Reachable(succ, reached0, x) { RootIsReachable(succ, reached0, x); }
    while queue != []
      invariant Marking(succ, reached0, reached, queue) && reached <= byName.Keys
      decreases |byName.Keys - reached|, |queue|
    {
      var n := |queue| - 1;
      LastSplits(queue);
      var added, all := NewDependencies(byName, words, queue[n], reached);
      MarkingStep(succ, reached0, reached, queue[..n], queue[n], added, all);
      ReachedGrows(byName.Keys, reached, added, all);
      queue, reached := queue[..n] + added, all;
    }
    forall x ensures x in reached <==> Reachable(succ, reached0, x) {
      if Reachable(succ, reached0, x) { ReachableIsLeast(succ, reached0, reached, x); }
    }
  }

  /** Exactly the names reachable from the declared roots. */
  method ReachedNames(byName: map<string, Block>, words: string -> seq<string>, roots: seq<string>)
    returns (reached: set<string>)
    requires forall x :: x in byName ==> byName[x].name == x
    ensures forall x :: x in reached <==> Reachable(Dependencies(byName, words), KnownRoots(byName, roots), x)
  {
    var queue, known := StartFrom(byName, roots);
    reached := Drain(byName, words, queue, known);
  }

  /** The inner loop: the dependencies of a block that are not reached yet are marked and queued, each once. */
  method NewDependencies(byName: map<string, Block>, words: string -> seq<string>, name: string, reached0: set<string>)
    returns (added: seq<string>, reached: set<string>)
    requires (forall x :: x in byName ==> byName[x].name == x) && name in byName
    ensures forall d :: d in added <==> d in Dependencies(byName, words)(name) && d !in reached0
    ensures forall x :: x in reached <==> x in reached0 || x in added
  {
    reached, added := reached0, [];
    var found := words(byName[name].source);
    for i := 0 to |found|
      invariant forall x :: x in reached <==> x in reached0 || x in added
      invariant forall d :: d in added <==> d in found[..i] && d != name && d in byName && d !in reached0
    {
      var dependency := found[i];
      if dependency != byName[name].name && dependency in byName && dependency !in reached {
        reached, added := reached + {dependency}, added + [dependency];
      }
    }
    assert found[..|found|] == found;
  }

  lemma {:induction false} MarkingStep(succ: Graph, roots: set<string>, reached: set<string>, queue: seq<string>,
          name: string, added: seq<string>, all: set<string>)
    requires Marking(succ, roots, reached, queue + [name])
    requires forall d :: d in added <==> d in succ(name) && d !in reached
    requires forall x :: x in all <==> x in reached || x in added
    ensures Marking(succ, roots, all, queue + added)
  {
    assert name in queue + [name];
    forall d | d in added ensures Reachable(succ, roots, d) { SuccessorIsReachable(succ, roots, name, d); }
    forall x | x in all && x !in queue + added ensures succ(x) <= all {
      if x != name { assert x !in queue + [name]; }
    }
  }

  lemma {:induction false} ReachedGrows(names: set<string>, reached: set<string>, added: seq<string>, all: set<string>)
    requires forall d :: d in added ==> d in names && d !in reached
    requires forall x :: x in all <==> x in reached || x in added
    ensures added == [] ==> names - all == names - reached
    ensures added != [] ==> |names - all| < |names - reached|
    ensures reached <= names ==> all <= names
  {
    if added != [] {
      assert added[0] in added;
      SmallerIsSmaller(names - all, names - reached);
    }
  }

  lemma {:induction false} LastSplits(queue: seq<string>)
    requires queue != []
    ensures queue[|queue| - 1] in queue && queue == queue[..|queue| - 1] + [queue[|queue| - 1]]
  {
  }

  lemma {:induction false} SmallerIsSmaller(a: set<string>, b: set<string>)
    requires a < b
    ensures |a| < |b|
  {
    var x :| x in b && x !in a;
    assert |b| == |a| + |b - a|;
  }

  function HasName(reached: set<string>): Block -> bool { (b: Block) => b.name in reached }

  /** The declaration is reachable from the known roots. */
  ghost function IsReached(blocks: seq<Block>, words: string -> seq<string>, roots: seq<string>): Block -> bool {
    (b: Block) => Reachable(Dependencies(ByName(blocks), words), KnownRoots(ByName(blocks), roots), b.name)
  }

  /** `closure`: the blocks of the least dependency-closed set with the known roots, in declaration order. */
  method Closure(blocks: seq<Block>, words: string -> seq<string>, roots: seq<string>) returns (result: seq<Block>)
    ensures result == Filter(IsReached(blocks, words, roots), blocks)
    ensures exists least :: KeptBy(blocks, words, roots, least, result)
  {
    var byName := ByName(blocks);
    ByNameKeys(blocks);
    var reached := ReachedNames(byName, words, roots);
    FilterCongruence(HasName(reached), IsReached(blocks, words, roots), blocks);
    result := Filter(HasName(reached), blocks);
    KeptNamesAreLeast(blocks, words, roots, reached);
    FilterCongruence(HasName(reached), (b: Block) => b.name in reached, blocks);
    assert KeptBy(blocks, words, roots, reached, result);
  }

  /** The blocks, in order, whose names are in the least set closed under mentions. */
  ghost predicate KeptBy(blocks: seq<Block>, words: string -> seq<string>, roots: seq<string>, least: set<string>,
          result: seq<Block>)
  {
    && IsMentionClosed(blocks, words, roots, least)
    && (forall s :: IsMentionClosed(blocks, words, roots, s) ==> least <= s)
    && result == Filter((b: Block) => b.name in least, blocks)
  }

  /** The reached names are the least dependency-closed set with the known roots. */
  lemma {:induction false} ReachedIsLeastClosed(succ: Graph, roots: set<string>, reached: set<string>,
          other: set<string>)
    requires forall x :: x in reached <==> Reachable(succ, roots, x)
    ensures roots <= reached && Closed(succ, reached)
    ensures roots <= other && Closed(succ, other) ==> reached <= other
  {
    forall x | x in roots ensures x in reached { RootIsReachable(succ, roots, x); }
    forall x, y | x in reached && y in succ(x) ensures y in reached { SuccessorIsReachable(succ, roots, x, y); }
    if roots <= other && Closed(succ, other) {
      forall x | x in reached ensures x in other { ReachableIsLeast(succ, roots, other, x); }
    }
  }

  /** Block `i` is the one its name stands for: the last with that name. */
  ghost predicate IsDeclaration(blocks: seq<Block>, i: int) {
    0 <= i < |blocks| && forall j :: i < j < |blocks| ==> blocks[j].name != blocks[i].name
  }

  ghost predicate IsDeclared(blocks: seq<Block>, name: string) {
    exists i :: 0 <= i < |blocks| && blocks[i].name == name
  }

  /** A set that has the declared roots and, with each declaration, the declared names it mentions. */
  ghost predicate IsMentionClosed(blocks: seq<Block>, words: string -> seq<string>, roots: seq<string>, s: set<string>)
  {
    && (forall r :: r in roots && IsDeclared(blocks, r) ==> r in s)
    && (forall i, d :: Mentions(blocks, words, i, d) && blocks[i].name in s ==> d in s)
  }

  ghost predicate Mentions(blocks: seq<Block>, words: string -> seq<string>, i: int, d: string) {
    IsDeclaration(blocks, i) && d in words(blocks[i].source) && IsDeclared(blocks, d)
  }

  lemma {:induction false} ByNameIsLast(blocks: seq<Block>, name: string)
    requires name in ByName(blocks)
    ensures exists i :: IsDeclaration(blocks, i) && ByName(blocks)[name] == blocks[i] && blocks[i].name == name
  {
    var n := |blocks| - 1;
    if blocks[n].name == name {
      assert IsDeclaration(blocks, n);
    } else {
      ByNameIsLast(blocks[..n], name);
      var before := blocks[..n];
      var i :| IsDeclaration(before, i) && ByName(before)[name] == before[i] && before[i].name == name;
      forall j | i < j < |blocks| ensures blocks[j].name != blocks[i].name { assert j < n ==> before[j] == blocks[j]; }
      assert IsDeclaration(blocks, i);
    }
  }

  lemma {:induction false} DeclarationIsByName(blocks: seq<Block>, i: int)
    requires IsDeclaration(blocks, i)
    ensures blocks[i].name in ByName(blocks) && ByName(blocks)[blocks[i].name] == blocks[i]
  {
    ByNameKeys(blocks);
    ByNameIsLast(blocks, blocks[i].name);
  }

  lemma {:induction false} MentionClosedIff(blocks: seq<Block>, words: string -> seq<string>, roots: seq<string>,
          s: set<string>)
    ensures IsMentionClosed(blocks, words, roots, s) <==>
      KnownRoots(ByName(blocks), roots) <= s && Closed(Dependencies(ByName(blocks), words), s)
  {
    var byName := ByName(blocks);
    var succ := Dependencies(byName, words);
    ByNameKeys(blocks);
    assert forall x :: x in byName <==> IsDeclared(blocks, x);
    if IsMentionClosed(blocks, words, roots, s) {
      forall x, y | x in s && y in succ(x) ensures y in s {
        ByNameIsLast(blocks, x);
        var i :| IsDeclaration(blocks, i) && byName[x] == blocks[i] && blocks[i].name == x;
        assert Mentions(blocks, words, i, y);
      }
    }
    if KnownRoots(byName, roots) <= s && Closed(succ, s) {
      forall r | r in roots && IsDeclared(blocks, r) ensures r in s { assert r in KnownRoots(byName, roots); }
      forall i, d | Mentions(blocks, words, i, d) && blocks[i].name in s ensures d in s {
        DeclarationIsByName(blocks, i);
        if d != blocks[i].name { assert d in succ(blocks[i].name); }
      }
    }
  }

  /** The names that the closure keeps are the least set with the declared roots and, with each declaration, the
      declared names that it mentions. */
  lemma {:induction false} KeptNamesAreLeast(blocks: seq<Block>, words: string -> seq<string>, roots: seq<string>,
          reached: set<string>)
    requires forall x :: x in reached <==>
      Reachable(Dependencies(ByName(blocks), words), KnownRoots(ByName(blocks), roots), x)
    ensures IsMentionClosed(blocks, words, roots, reached)
    ensures forall s :: IsMentionClosed(blocks, words, roots, s) ==> reached <= s
  {
    var succ, known := Dependencies(ByName(blocks), words), KnownRoots(ByName(blocks), roots);
    MentionClosedIff(blocks, words, roots, reached);
    ReachedIsLeastClosed(succ, known, reached, reached);
    forall s | IsMentionClosed(blocks, words, roots, s) ensures reached <= s {
      MentionClosedIff(blocks, words, roots, s);
      ReachedIsLeastClosed(succ, known, reached, s);
    }
  }
}
