/** `filter`, `map` and `new Set(...)` on arrays, and what it means for two arrays to agree except on
    elements that a reader is not allowed to see. */
module Sequences {
  function Filter<X(!new)>(p: X -> bool, xs: seq<X>): (r: seq<X>)
    ensures forall x :: x in r <==> x in xs && p(x)
  {
    if xs == [] then []
    else
      assert xs == [xs[0]] + xs[1..];
      (if p(xs[0]) then [xs[0]] else []) + Filter(p, xs[1..])
  }

  function Map<X, Y>(f: X -> Y, xs: seq<X>): (r: seq<Y>)
    ensures |r| == |xs|
  {
    seq(|xs|, i requires 0 <= i < |xs| => f(xs[i]))
  }

  ghost function Elements<X>(xs: seq<X>): set<X> {
    set x | x in xs
  }

  /** `[...new Set(xs)]`: first occurrences, in order. */
  function Distinct<X(==,!new)>(xs: seq<X>): (r: seq<X>)
    ensures forall x :: x in r <==> x in xs
    ensures multiset(r) == multiset(Elements(xs))
  {
    if xs == [] then []
    else
      var n := |xs| - 1;
      var r := Distinct(xs[..n]);
      assert xs == xs[..n] + [xs[n]];
      if xs[n] in xs[..n] then assert Elements(xs) == Elements(xs[..n]); r
      else assert Elements(xs) == Elements(xs[..n]) + {xs[n]}; r + [xs[n]]
  }

  ghost predicate Pointwise<X>(same: (X, X) -> bool, xs: seq<X>, ys: seq<X>) {
    |xs| == |ys| && forall i :: 0 <= i < |xs| ==> same(xs[i], ys[i])
  }

  /** `xs` and `ys` can be aligned so that they differ only in hidden elements, inserted or removed
      anywhere, and in aligned elements that are the same to the reader. */
  ghost predicate Agree<X>(hidden: X -> bool, same: (X, X) -> bool, xs: seq<X>, ys: seq<X>)
    decreases |xs| + |ys|
  {
    || (xs == [] && ys == [])
    || (xs != [] && hidden(xs[0]) && Agree(hidden, same, xs[1..], ys))
    || (ys != [] && hidden(ys[0]) && Agree(hidden, same, xs, ys[1..]))
    || (xs != [] && ys != [] && same(xs[0], ys[0]) && Agree(hidden, same, xs[1..], ys[1..]))
  }

  /** A filter that rejects hidden elements and cannot tell same elements apart sees the same list. */
  lemma {:induction false} AgreeingFilters<X(!new)>(hidden: X -> bool, same: (X, X) -> bool, p: X -> bool,
          xs: seq<X>, ys: seq<X>)
    requires forall x :: hidden(x) ==> !p(x)
    requires forall x, y :: same(x, y) ==> p(x) == p(y)
    requires Agree(hidden, same, xs, ys)
    ensures Pointwise(same, Filter(p, xs), Filter(p, ys))
    decreases |xs| + |ys|
  {
    if xs == [] && ys == [] {
    } else if xs != [] && hidden(xs[0]) && Agree(hidden, same, xs[1..], ys) {
      AgreeingFilters(hidden, same, p, xs[1..], ys);
      assert Filter(p, xs) == Filter(p, xs[1..]);
    } else if ys != [] && hidden(ys[0]) && Agree(hidden, same, xs, ys[1..]) {
      AgreeingFilters(hidden, same, p, xs, ys[1..]);
      assert Filter(p, ys) == Filter(p, ys[1..]);
    } else {
      AgreeingFilters(hidden, same, p, xs[1..], ys[1..]);
      PointwiseHeads(same, p, xs, ys);
    }
  }

  lemma {:induction false} PointwiseHeads<X(!new)>(same: (X, X) -> bool, p: X -> bool, xs: seq<X>, ys: seq<X>)
    requires xs != [] && ys != [] && same(xs[0], ys[0]) && p(xs[0]) == p(ys[0])
    requires Pointwise(same, Filter(p, xs[1..]), Filter(p, ys[1..]))
    ensures Pointwise(same, Filter(p, xs), Filter(p, ys))
  {
    var fx, fy := Filter(p, xs[1..]), Filter(p, ys[1..]);
    if p(xs[0]) {
      assert Filter(p, xs) == [xs[0]] + fx && Filter(p, ys) == [ys[0]] + fy;
    } else {
      assert Filter(p, xs) == fx && Filter(p, ys) == fy;
    }
  }

  lemma {:induction false} PointwiseFilters<X(!new)>(same: (X, X) -> bool, p: X -> bool, xs: seq<X>, ys: seq<X>)
    requires forall x, y :: same(x, y) ==> p(x) == p(y)
    requires Pointwise(same, xs, ys)
    ensures Pointwise(same, Filter(p, xs), Filter(p, ys))
  {
    if xs != [] {
      PointwiseFilters(same, p, xs[1..], ys[1..]);
      PointwiseHeads(same, p, xs, ys);
    }
  }

  lemma {:induction false} MapPointwise<X(!new), Y>(same: (X, X) -> bool, f: X -> Y, xs: seq<X>, ys: seq<X>)
    requires forall x, y :: same(x, y) ==> f(x) == f(y)
    requires Pointwise(same, xs, ys)
    ensures Map(f, xs) == Map(f, ys)
  {
    assert forall i :: 0 <= i < |xs| ==> Map(f, xs)[i] == Map(f, ys)[i];
  }

  lemma {:induction false} FilterMultiset<X(!new)>(p: X -> bool, xs: seq<X>)
    ensures forall x :: multiset(Filter(p, xs))[x] == if p(x) then multiset(xs)[x] else 0
  {
    if xs != [] {
      FilterMultiset(p, xs[1..]);
      assert xs == [xs[0]] + xs[1..];
    }
  }

  /** Filtering two arrangements of the same contents leaves two arrangements of the same contents. */
  lemma {:induction false} FilterPermutation<X(!new)>(p: X -> bool, xs: seq<X>, ys: seq<X>)
    requires multiset(xs) == multiset(ys)
    ensures multiset(Filter(p, xs)) == multiset(Filter(p, ys))
  {
    FilterMultiset(p, xs);
    FilterMultiset(p, ys);
  }

  function Without<X>(xs: seq<X>, k: nat): (r: seq<X>)
    requires k < |xs|
    ensures multiset(xs) == multiset{xs[k]} + multiset(r)
  {
    assert xs == xs[..k] + [xs[k]] + xs[k + 1..];
    xs[..k] + xs[k + 1..]
  }

  lemma {:induction false} MapWithout<X, Y>(f: X -> Y, xs: seq<X>, k: nat)
    requires k < |xs|
    ensures Map(f, Without(xs, k)) == Without(Map(f, xs), k)
  {
  }

  /** Every mapped element comes from somewhere. */
  lemma {:induction false} MapOrigin<X, Y>(f: X -> Y, xs: seq<X>, y: Y) returns (i: nat)
    requires y in Map(f, xs)
    ensures i < |xs| && f(xs[i]) == y
  {
    i :| i < |xs| && Map(f, xs)[i] == y;
  }

  /** Mapping two arrangements of the same contents gives two arrangements of the same contents. */
  lemma {:induction false} MapPermutation<X, Y>(f: X -> Y, xs: seq<X>, ys: seq<X>)
    requires multiset(xs) == multiset(ys)
    ensures multiset(Map(f, xs)) == multiset(Map(f, ys))
  {
    if xs == [] {
      assert |multiset(ys)| == 0;
    } else {
      assert xs[0] in multiset(ys);
      var k :| 0 <= k < |ys| && ys[k] == xs[0];
      var xs', ys' := Without(xs, 0), Without(ys, k);
      assert multiset(xs') == multiset(xs) - multiset{xs[0]} == multiset(ys');
      MapPermutation(f, xs', ys');
      MapWithout(f, xs, 0);
      MapWithout(f, ys, k);
    }
  }

  // ---------- where elements come from ----------

  /** Element `j` of `ys` is element `origin[j]` of `xs`, and no element of `xs` is taken twice. */
  ghost predicate TakenFrom<X>(xs: seq<X>, origin: seq<nat>, ys: seq<X>) {
    && |origin| == |ys|
    && (forall j :: 0 <= j < |ys| ==> origin[j] < |xs| && xs[origin[j]] == ys[j])
    && (forall i, j :: 0 <= i < j < |ys| ==> origin[i] != origin[j])
  }

  function ShiftUp(at: seq<nat>): (r: seq<nat>)
    ensures |r| == |at| && forall j :: 0 <= j < |at| ==> r[j] == at[j] + 1
  {
    seq(|at|, j requires 0 <= j < |at| => at[j] + 1)
  }

  lemma {:induction false} ShiftUpMembers(at: seq<nat>, i: nat)
    ensures i in ShiftUp(at) <==> i > 0 && i - 1 in at
  {
    if i > 0 && i - 1 in at {
      var j :| 0 <= j < |at| && at[j] == i - 1;
      assert ShiftUp(at)[j] == i;
    }
    if i in ShiftUp(at) {
      var j :| 0 <= j < |at| && ShiftUp(at)[j] == i;
      assert at[j] == i - 1;
    }
  }

  /** The positions of the accepted elements. */
  function Positions<X>(p: X -> bool, xs: seq<X>): seq<nat> {
    if xs == [] then [] else (if p(xs[0]) then [0] else []) + ShiftUp(Positions(p, xs[1..]))
  }

  lemma {:induction false} PositionsAreAccepted<X>(p: X -> bool, xs: seq<X>, i: nat)
    ensures i in Positions(p, xs) <==> i < |xs| && p(xs[i])
  {
    if xs != [] {
      var rest := ShiftUp(Positions(p, xs[1..]));
      HeadOrRest(p(xs[0]), rest, i);
      ShiftUpMembers(Positions(p, xs[1..]), i);
      if i > 0 { PositionsAreAccepted(p, xs[1..], i - 1); }
    }
  }

  lemma {:induction false} HeadOrRest(head: bool, rest: seq<nat>, i: nat)
    ensures i in (if head then [0] else []) + rest <==> (head && i == 0) || i in rest
  {
  }

  /** `ys` are the elements of `xs` at the increasing positions `at`. */
  ghost predicate TakenInOrder<X>(xs: seq<X>, at: seq<nat>, ys: seq<X>) {
    && |at| == |ys|
    && (forall j :: 0 <= j < |ys| ==> at[j] < |xs| && xs[at[j]] == ys[j])
    && (forall i, j :: 0 <= i < j < |at| ==> at[i] < at[j])
  }

  lemma {:induction false} TakenBehindHead<X>(xs: seq<X>, at: seq<nat>, ys: seq<X>)
    requires xs != [] && TakenInOrder(xs[1..], at, ys)
    ensures TakenInOrder(xs, ShiftUp(at), ys)
  {
    forall j | 0 <= j < |ys| ensures ShiftUp(at)[j] < |xs| && xs[ShiftUp(at)[j]] == ys[j] {
      assert xs[1..][at[j]] == xs[at[j] + 1];
    }
  }

  lemma {:induction false} TakenWithHead<X>(xs: seq<X>, at: seq<nat>, ys: seq<X>)
    requires xs != [] && TakenInOrder(xs[1..], at, ys)
    ensures TakenInOrder(xs, [0] + ShiftUp(at), [xs[0]] + ys)
  {
    TakenBehindHead(xs, at, ys);
  }

  /** A filter takes the elements at the accepted positions, in order. */
  lemma {:induction false} FilterTakesPositions<X(!new)>(p: X -> bool, xs: seq<X>)
    ensures TakenInOrder(xs, Positions(p, xs), Filter(p, xs))
  {
    if xs != [] {
      var at, ys := Positions(p, xs[1..]), Filter(p, xs[1..]);
      FilterTakesPositions(p, xs[1..]);
      TakenBehindHead(xs, at, ys);
      TakenWithHead(xs, at, ys);
      assert [] + ShiftUp(at) == ShiftUp(at) && [] + ys == ys;
    }
  }

  function Bump(k: nat, i: nat): nat { if i < k then i else i + 1 }

  /** Two arrangements of the same contents take each other's elements one to one. */
  lemma {:induction false} PermutationOrigin<X>(xs: seq<X>, ys: seq<X>) returns (origin: seq<nat>)
    requires multiset(xs) == multiset(ys)
    ensures TakenFrom(xs, origin, ys)
    ensures forall i :: 0 <= i < |xs| ==> i in origin
  {
    origin := [];
    if ys == [] {
      assert |multiset(xs)| == 0;
    } else {
      assert ys[0] in multiset(xs);
      var k :| 0 <= k < |xs| && xs[k] == ys[0];
      HeadRemoved(xs, k, ys);
      var rest := PermutationOrigin(Without(xs, k), ys[1..]);
      origin := BumpAll(xs, k, rest, ys);
    }
  }

  lemma {:induction false} HeadRemoved<X>(xs: seq<X>, k: nat, ys: seq<X>)
    requires multiset(xs) == multiset(ys) && ys != [] && k < |xs| && xs[k] == ys[0]
    ensures multiset(Without(xs, k)) == multiset(ys[1..])
  {
    assert ys == [ys[0]] + ys[1..];
    assert multiset(Without(xs, k)) == multiset(xs) - multiset{ys[0]};
  }

  lemma {:induction false} BumpAll<X>(xs: seq<X>, k: nat, rest: seq<nat>, ys: seq<X>) returns (origin: seq<nat>)
    requires k < |xs| && ys != [] && xs[k] == ys[0] && TakenFrom(Without(xs, k), rest, ys[1..])
    requires forall i :: 0 <= i < |xs| - 1 ==> i in rest
    ensures TakenFrom(xs, origin, ys)
    ensures forall i :: 0 <= i < |xs| ==> i in origin
  {
    var bumped := seq(|rest|, j requires 0 <= j < |rest| => Bump(k, rest[j]));
    origin := [k] + bumped;
    forall j | 0 < j < |ys| ensures origin[j] < |xs| && xs[origin[j]] == ys[j] {
      assert Without(xs, k)[rest[j - 1]] == ys[1..][j - 1];
    }
    forall i | 0 <= i < |xs| ensures i in origin {
      if i != k {
        var i' := if i < k then i else i - 1;
        assert i' in rest;
        var j :| 0 <= j < |rest| && rest[j] == i';
        assert origin[j + 1] == i;
      }
    }
  }

  /** `list` holds the images of the accepted elements of `xs`, one to one; `origin` says where each comes from. */
  ghost predicate ImagesOf<X, Y>(p: X -> bool, f: X -> Y, xs: seq<X>, list: seq<Y>, origin: seq<nat>) {
    && |origin| == |list|
    && (forall j :: 0 <= j < |list| ==> origin[j] < |xs| && list[j] == f(xs[origin[j]]))
    && (forall i, j :: 0 <= i < j < |list| ==> origin[i] != origin[j])
    && (forall i :: 0 <= i < |xs| ==> (i in origin <==> p(xs[i])))
  }

  /** Filtering, mapping and rearranging keeps the accepted elements one to one. */
  lemma {:induction false} RearrangedImages<X(!new), Y>(p: X -> bool, f: X -> Y, xs: seq<X>, list: seq<Y>)
    returns (origin: seq<nat>)
    requires multiset(Map(f, Filter(p, xs))) == multiset(list)
    ensures ImagesOf(p, f, xs, list, origin)
  {
    var picked := Positions(p, xs);
    FilterTakesPositions(p, xs);
    var arranged := PermutationOrigin(Map(f, Filter(p, xs)), list);
    SameLength(Map(f, Filter(p, xs)), list);
    origin := ComposedOrigin(picked, arranged);
    forall i | 0 <= i < |xs| ensures i in origin <==> p(xs[i]) { PositionsAreAccepted(p, xs, i); }
  }

  lemma {:induction false} SameLength<X>(xs: seq<X>, ys: seq<X>)
    requires multiset(xs) == multiset(ys)
    ensures |xs| == |ys|
  {
    assert |multiset(xs)| == |multiset(ys)|;
  }

  /** Positions picked in a one-to-one rearrangement. */
  lemma {:induction false} ComposedOrigin(picked: seq<nat>, arranged: seq<nat>) returns (origin: seq<nat>)
    requires |arranged| == |picked| && forall j :: 0 <= j < |arranged| ==> arranged[j] < |picked|
    requires forall i, j :: 0 <= i < j < |picked| ==> picked[i] < picked[j]
    requires forall i, j :: 0 <= i < j < |arranged| ==> arranged[i] != arranged[j]
    requires forall a :: 0 <= a < |picked| ==> a in arranged
    ensures |origin| == |picked| && forall j :: 0 <= j < |origin| ==> origin[j] == picked[arranged[j]]
    ensures forall i, j :: 0 <= i < j < |origin| ==> origin[i] != origin[j]
    ensures forall i :: i in origin <==> i in picked
  {
    origin := seq(|arranged|, j requires 0 <= j < |arranged| => picked[arranged[j]]);
    forall i | i in picked ensures i in origin {
      var a :| 0 <= a < |picked| && picked[a] == i;
      assert a in arranged;
      var j :| 0 <= j < |arranged| && arranged[j] == a;
      assert origin[j] == i;
    }
  }
}
