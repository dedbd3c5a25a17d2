/** `Array.prototype.sort` with a consistent comparator: a stable sort. */
module Sorting {
  import opened Text

  /** Connected and transitive: what a comparator needs for sorting to be well defined. */
  ghost predicate TotalPreorder<T(!new)>(leq: (T, T) -> bool) {
    && (forall x, y :: leq(x, y) || leq(y, x))
    && (forall x, y, z :: leq(x, y) && leq(y, z) ==> leq(x, z))
  }

  ghost predicate TiesAreEqual<T>(leq: (T, T) -> bool, xs: seq<T>) {
    forall x, y :: x in xs && y in xs && leq(x, y) && leq(y, x) ==> x == y
  }

  ghost predicate Sorted<T>(leq: (T, T) -> bool, xs: seq<T>) {
    forall i, j :: 0 <= i < j < |xs| ==> leq(xs[i], xs[j])
  }

  function Insert<T>(leq: (T, T) -> bool, x: T, xs: seq<T>): (r: seq<T>)
    ensures multiset(r) == multiset{x} + multiset(xs)
  {
    if xs == [] || leq(x, xs[0]) then [x] + xs
    else
      assert xs == [xs[0]] + xs[1..];
      [xs[0]] + Insert(leq, x, xs[1..])
  }

  /** Earlier elements stay before later ones they tie with. */
  function Sort<T>(leq: (T, T) -> bool, xs: seq<T>): (r: seq<T>)
    ensures multiset(r) == multiset(xs)
  {
    if xs == [] then []
    else
      assert xs == [xs[0]] + xs[1..];
      Insert(leq, xs[0], Sort(leq, xs[1..]))
  }

  lemma {:induction false} SameElements<T>(xs: seq<T>, ys: seq<T>)
    requires multiset(xs) == multiset(ys)
    ensures |xs| == |ys|
    ensures forall x :: x in xs <==> x in ys
  {
    assert |multiset(xs)| == |multiset(ys)|;
    forall x ensures x in xs <==> x in ys {
      assert x in multiset(xs) <==> x in multiset(ys);
    }
  }

  lemma {:induction false} SortKeepsMembers<T>(leq: (T, T) -> bool, xs: seq<T>, x: T)
    ensures x in Sort(leq, xs) <==> x in xs
  {
    assert x in multiset(Sort(leq, xs)) <==> x in multiset(xs);
  }

  lemma {:induction false} InsertSorted<T(!new)>(leq: (T, T) -> bool, x: T, xs: seq<T>)
    requires TotalPreorder(leq) && Sorted(leq, xs)
    ensures Sorted(leq, Insert(leq, x, xs))
  {
    if xs != [] && !leq(x, xs[0]) {
      var rest := Insert(leq, x, xs[1..]);
      InsertSorted(leq, x, xs[1..]);
      forall k | 0 <= k < |rest| ensures leq(xs[0], rest[k]) {
        assert rest[k] in multiset(rest);
        assert rest[k] == x || rest[k] in xs[1..];
      }
    }
  }

  lemma {:induction false} SortSorts<T(!new)>(leq: (T, T) -> bool, xs: seq<T>)
    requires TotalPreorder(leq)
    ensures Sorted(leq, Sort(leq, xs))
  {
    if xs != [] {
      SortSorts(leq, xs[1..]);
      InsertSorted(leq, xs[0], Sort(leq, xs[1..]));
    }
  }

  /** Where ties are equalities there is only one sorted arrangement of given contents. */
  lemma {:induction false} SortedIsUnique<T(!new)>(leq: (T, T) -> bool, xs: seq<T>, ys: seq<T>)
    requires TotalPreorder(leq) && TiesAreEqual(leq, xs)
    requires Sorted(leq, xs) && Sorted(leq, ys) && multiset(xs) == multiset(ys)
    ensures xs == ys
  {
    SameElements(xs, ys);
    if xs != [] {
      assert xs[0] == ys[0] by {
        assert xs[0] in ys && ys[0] in xs;
        assert leq(xs[0], xs[0]);
      }
      assert xs == [xs[0]] + xs[1..] && ys == [ys[0]] + ys[1..];
      assert multiset(xs[1..]) == multiset(xs) - multiset{xs[0]};
      assert multiset(ys[1..]) == multiset(ys) - multiset{ys[0]};
      SortedIsUnique(leq, xs[1..], ys[1..]);
    }
  }

  /** Sorting forgets the input order. */
  lemma {:induction false} SortOfPermutation<T(!new)>(leq: (T, T) -> bool, xs: seq<T>, ys: seq<T>)
    requires TotalPreorder(leq) && TiesAreEqual(leq, xs) && multiset(xs) == multiset(ys)
    ensures Sort(leq, xs) == Sort(leq, ys)
  {
    SortSorts(leq, xs);
    SortSorts(leq, ys);
    SameElements(xs, Sort(leq, xs));
    SortedIsUnique(leq, Sort(leq, xs), Sort(leq, ys));
  }

  /** A loop over a sorted list that keeps the first element it accepts. */
  function FirstWith<T>(p: T -> bool, xs: seq<T>): Option<T> {
    if xs == [] then None else if p(xs[0]) then Some(xs[0]) else FirstWith(p, xs[1..])
  }

  /** Index `i` holds the least accepted element, and the earliest among its ties. */
  ghost predicate IsStableMin<T>(leq: (T, T) -> bool, p: T -> bool, xs: seq<T>, i: int) {
    && 0 <= i < |xs| && p(xs[i])
    && (forall j :: 0 <= j < |xs| && p(xs[j]) ==> leq(xs[i], xs[j]))
    && (forall j :: 0 <= j < i && p(xs[j]) ==> !leq(xs[j], xs[i]))
  }

  lemma {:induction false} FirstOfInsert<T(!new)>(leq: (T, T) -> bool, p: T -> bool, x: T, xs: seq<T>)
    requires TotalPreorder(leq) && Sorted(leq, xs)
    ensures var f := FirstWith(p, xs);
      FirstWith(p, Insert(leq, x, xs)) ==
      if p(x) && (f.None? || leq(x, f.value)) then Some(x) else f
  {
    if xs == [] {
      assert [x] + xs == [x] && [x][1..] == [];
    } else if leq(x, xs[0]) {
      assert ([x] + xs)[1..] == xs;
      FirstIsMember(p, xs);
      assert leq(xs[0], xs[0]);
    } else {
      FirstOfInsert(leq, p, x, xs[1..]);
      assert Insert(leq, x, xs)[1..] == Insert(leq, x, xs[1..]);
    }
  }

  lemma {:induction false} FirstIsMember<T>(p: T -> bool, xs: seq<T>)
    ensures var f := FirstWith(p, xs);
      match f
      case None => forall x :: x in xs ==> !p(x)
      case Some(v) => v in xs && p(v)
  {
    if xs != [] && !p(xs[0]) { FirstIsMember(p, xs[1..]); }
  }

  /** Prepending `x` moves the stable minimum to it exactly when `x` is accepted and at most the old one. */
  lemma {:induction false} StableMinPrepend<T(!new)>(leq: (T, T) -> bool, p: T -> bool, x: T, xs: seq<T>, i: int)
    requires TotalPreorder(leq) && IsStableMin(leq, p, xs, i)
    ensures IsStableMin(leq, p, [x] + xs, if p(x) && leq(x, xs[i]) then 0 else i + 1)
  {
    var all := [x] + xs;
    assert forall k :: 0 < k < |all| ==> all[k] == xs[k - 1];
    assert all[0] == x && leq(x, x) && (leq(x, xs[i]) || leq(xs[i], x));
  }

  /** Sorting and then taking the first accepted element selects the stable minimum. */
  lemma {:induction false} FirstOfSorted<T(!new)>(leq: (T, T) -> bool, p: T -> bool, xs: seq<T>) returns (i: int)
    requires TotalPreorder(leq)
    ensures var f := FirstWith(p, Sort(leq, xs));
      if f.None? then forall x :: x in xs ==> !p(x)
      else IsStableMin(leq, p, xs, i) && xs[i] == f.value
  {
    i := 0;
    if xs != [] {
      var x, rest := xs[0], xs[1..];
      var j := FirstOfSorted(leq, p, rest);
      SortSorts(leq, rest);
      FirstOfInsert(leq, p, x, Sort(leq, rest));
      assert xs == [x] + rest;
      if FirstWith(p, Sort(leq, rest)).Some? {
        StableMinPrepend(leq, p, x, rest, j);
        i := if p(x) && leq(x, rest[j]) then 0 else j + 1;
      } else if p(x) {
        assert leq(x, x);
      }
    }
  }
}
