/** The retro successor match (scripts/backfill-calibration-corpus-phase2-core.ts). `parse` stands for
    `Date.parse`, `evaluate` for `evaluateSuccessorMatch` and `lookback` for `SUPERSEDED_LOOKBACK_MS`. */
module SuccessorMatch {
  import opened Text
  import opened Sorting
  import opened Sequences

  datatype Side = Side(author: Option<string>, linkedIssues: seq<int>, files: seq<string>)
  datatype Close = Close(targetKey: string, number: int, closedAt: string, side: Side)
  datatype Successor = Successor(number: int, mergedAt: string, side: Side)
  datatype Match<H> = Match(targetKey: string, supersededBy: int, heuristics: H)

  datatype Rules<!H> = Rules(parse: string -> Option<int>, evaluate: (Side, Side) -> Option<H>, lookback: int)

  /** A different number, merged strictly after the close and within the lookback. */
  predicate Eligible<H>(rules: Rules<H>, close: Close, s: Successor) {
    && s.number != close.number
    && rules.parse(close.closedAt).Some? && rules.parse(s.mergedAt).Some?
    && var gap := rules.parse(s.mergedAt).value - rules.parse(close.closedAt).value; 0 < gap <= rules.lookback
  }

  predicate Accepted<H>(rules: Rules<H>, close: Close, s: Successor) {
    rules.evaluate(s.side, close.side).Some?
  }

  predicate Qualifies<H>(rules: Rules<H>, close: Close, s: Successor) {
    Eligible(rules, close, s) && Accepted(rules, close, s)
  }

  /** By merge time, then by number. */
  predicate NotLater(a: Successor, b: Successor) {
    Less(a.mergedAt, b.mergedAt) || (!Less(b.mergedAt, a.mergedAt) && a.number <= b.number)
  }

  function MergeOrder(): (Successor, Successor) -> bool { (a, b) => NotLater(a, b) }
  function IsEligible<H>(rules: Rules<H>, close: Close): Successor -> bool {
    (s: Successor) => Eligible(rules, close, s)
  }

  function IsAccepted<H>(rules: Rules<H>, close: Close): Successor -> bool {
    (s: Successor) => Accepted(rules, close, s)
  }

  function MatchOf<H>(rules: Rules<H>, close: Close, s: Successor): Match<H>
    requires Accepted(rules, close, s)
  {
    Match(close.targetKey, s.number, rules.evaluate(s.side, close.side).value)
  }

  function MatchRetroSuccessors<H>(rules: Rules<H>, close: Close, successors: seq<Successor>): Option<Match<H>> {
    if rules.parse(close.closedAt).None? then None
    else
      var eligible := Sort(MergeOrder(), Filter(IsEligible(rules, close), successors));
      FirstIsMember(IsAccepted(rules, close), eligible);
      var first := FirstWith(IsAccepted(rules, close), eligible);
      if first.None? then None else Some(MatchOf(rules, close, first.value))
  }

  lemma {:induction false} MergeOrderIsTotal()
    ensures TotalPreorder(MergeOrder())
    ensures forall a, b :: NotLater(a, b) && NotLater(b, a) ==> a.mergedAt == b.mergedAt && a.number == b.number
  {
    forall a, b ensures NotLater(a, b) || NotLater(b, a) { }
    forall a, b | NotLater(a, b) && NotLater(b, a) ensures a.mergedAt == b.mergedAt && a.number == b.number {
      LessConnected(a.mergedAt, b.mergedAt);
      if Less(a.mergedAt, b.mergedAt) { LessAsymmetric(a.mergedAt, b.mergedAt); }
    }
    forall a, b, c | NotLater(a, b) && NotLater(b, c) ensures NotLater(a, c) {
      if a.mergedAt != b.mergedAt { LessConnected(a.mergedAt, b.mergedAt); }
      if c.mergedAt != b.mergedAt { LessConnected(b.mergedAt, c.mergedAt); }
      if Less(a.mergedAt, b.mergedAt) && Less(b.mergedAt, c.mergedAt) {
        LessTransitive(a.mergedAt, b.mergedAt, c.mergedAt);
      }
    }
  }

  /** `s` is the least qualifying candidate. */
  ghost predicate IsWinner<H>(rules: Rules<H>, close: Close, successors: seq<Successor>, s: Successor) {
    && s in successors && Qualifies(rules, close, s)
    && forall t :: t in successors && Qualifies(rules, close, t) ==> NotLater(s, t)
  }

  /** A candidate that may be matched, on its own fields: another pull request, merged after the close, at most
      the lookback later, and accepted by the heuristic. */
  ghost predicate MayBeMatched<H>(rules: Rules<H>, close: Close, s: Successor) {
    && s.number != close.number && rules.evaluate(s.side, close.side).Some?
    && match (rules.parse(close.closedAt), rules.parse(s.mergedAt))
       case (Some(closed), Some(merged)) => closed < merged && merged - closed <= rules.lookback
       case _ => false
  }

  /** `m` is the match with `s`, which comes before every other candidate that may be matched. */
  ghost predicate IsMatchWith<H>(rules: Rules<H>, close: Close, successors: seq<Successor>, s: Successor, m: Match<H>) {
    && s in successors && MayBeMatched(rules, close, s)
    && m.supersededBy == s.number && m.targetKey == close.targetKey
    && rules.evaluate(s.side, close.side) == Some(m.heuristics)
    && forall t :: t in successors && MayBeMatched(rules, close, t) ==>
      Less(s.mergedAt, t.mergedAt) || (s.mergedAt == t.mergedAt && s.number <= t.number)
  }

  /** The match names the least of the candidates that may be matched, by merge timestamp and number, with its
      heuristics; and there is no match exactly when there is no such candidate. */
  lemma {:induction false} MatchIsLeast<H>(rules: Rules<H>, close: Close, successors: seq<Successor>)
    ensures match MatchRetroSuccessors(rules, close, successors)
      case None => forall s :: s in successors ==> !MayBeMatched(rules, close, s)
      case Some(m) => exists s :: IsMatchWith(rules, close, successors, s, m)
  {
    MatchIsWinnersMatch(rules, close, successors);
    forall s ensures MayBeMatched(rules, close, s) <==> Qualifies(rules, close, s) { }
    var m := MatchRetroSuccessors(rules, close, successors);
    if m.Some? {
      var s :| IsWinner(rules, close, successors, s) && m.value == MatchOf(rules, close, s);
      forall t | t in successors && MayBeMatched(rules, close, t)
        ensures Less(s.mergedAt, t.mergedAt) || (s.mergedAt == t.mergedAt && s.number <= t.number)
      {
        LessConnected(s.mergedAt, t.mergedAt);
      }
      assert IsMatchWith(rules, close, successors, s, m.value);
    }
  }

  lemma {:induction false} MatchIsWinnersMatch<H>(rules: Rules<H>, close: Close, successors: seq<Successor>)
    ensures match MatchRetroSuccessors(rules, close, successors)
      case None => forall s :: s in successors ==> !Qualifies(rules, close, s)
      case Some(m) => exists s :: IsWinner(rules, close, successors, s) && m == MatchOf(rules, close, s)
  {
    if rules.parse(close.closedAt).Some? {
      var eligible := Filter(IsEligible(rules, close), successors);
      MergeOrderIsTotal();
      var i := FirstOfSorted(MergeOrder(), IsAccepted(rules, close), eligible);
      var first := FirstWith(IsAccepted(rules, close), Sort(MergeOrder(), eligible));
      if first.Some? {
        var s := eligible[i];
        assert s in eligible;
        forall t | t in successors && Qualifies(rules, close, t) ensures NotLater(s, t) {
          assert t in eligible;
          var j :| 0 <= j < |eligible| && eligible[j] == t;
        }
        assert IsWinner(rules, close, successors, s);
      } else {
        forall s | s in successors ensures !Qualifies(rules, close, s) {
          assert s in eligible || !Eligible(rules, close, s);
        }
      }
    }
  }

  ghost predicate DistinctNumbers(successors: seq<Successor>) {
    forall a, b :: a in successors && b in successors && a.number == b.number ==> a == b
  }

  lemma {:induction false} MatchIsWinner<H>(rules: Rules<H>, close: Close, successors: seq<Successor>, s: Successor)
    requires DistinctNumbers(successors) && IsWinner(rules, close, successors, s)
    ensures MatchRetroSuccessors(rules, close, successors) == Some(MatchOf(rules, close, s))
  {
    MatchIsWinnersMatch(rules, close, successors);
    var m := MatchRetroSuccessors(rules, close, successors);
    if m.Some? {
      var w :| IsWinner(rules, close, successors, w) && m.value == MatchOf(rules, close, w);
      MergeOrderIsTotal();
    }
  }

  /** Re-running with more candidates, in any order, keeps the match, as long as every new candidate fails to
      qualify or comes after the old winner. */
  lemma {:induction false} MoreCandidatesKeepTheMatch<H>(rules: Rules<H>, close: Close, some: seq<Successor>,
          more: seq<Successor>)
    requires DistinctNumbers(more) && forall s :: s in some ==> s in more
    requires forall s, t :: IsWinner(rules, close, some, s) && t in more && t !in some && Qualifies(rules, close, t) ==>
      NotLater(s, t)
    requires MatchRetroSuccessors(rules, close, some).None? ==>
      forall t :: t in more && t !in some ==> !Qualifies(rules, close, t)
    ensures MatchRetroSuccessors(rules, close, more) == MatchRetroSuccessors(rules, close, some)
  {
    MatchIsWinnersMatch(rules, close, some);
    MatchIsWinnersMatch(rules, close, more);
    if MatchRetroSuccessors(rules, close, some).Some? {
      var s :| IsWinner(rules, close, some, s);
      assert IsWinner(rules, close, more, s);
      MatchIsWinner(rules, close, some, s);
      MatchIsWinner(rules, close, more, s);
    }
  }

  /** The order in which GitHub lists the candidates does not matter. */
  lemma {:induction false} CandidateOrderIsIrrelevant<H>(rules: Rules<H>, close: Close, some: seq<Successor>,
          reordered: seq<Successor>)
    requires DistinctNumbers(some) && multiset(some) == multiset(reordered)
    ensures MatchRetroSuccessors(rules, close, reordered) == MatchRetroSuccessors(rules, close, some)
  {
    SameElements(some, reordered);
    MoreCandidatesKeepTheMatch(rules, close, some, reordered);
  }

  // ---------- earliest by text against earliest in time ----------

  /** No qualifying candidate merged before the winner. */
  ghost predicate EarliestWins<H>(rules: Rules<H>, close: Close, successors: seq<Successor>) {
    forall s, t :: IsWinner(rules, close, successors, s) && t in successors && Qualifies(rules, close, t) ==>
      rules.parse(s.mergedAt).value <= rules.parse(t.mergedAt).value
  }

  /** The merge timestamps of the qualifying candidates are in text order where they are in time order. */
  ghost predicate TextFollowsTime<H>(rules: Rules<H>, close: Close, successors: seq<Successor>) {
    forall a, b :: a in successors && b in successors && Qualifies(rules, close, a) && Qualifies(rules, close, b) ==>
      (rules.parse(a.mergedAt).value < rules.parse(b.mergedAt).value ==> Less(a.mergedAt, b.mergedAt))
  }

  lemma {:induction false} WinnerMergedFirst<H>(rules: Rules<H>, close: Close, successors: seq<Successor>)
    requires TextFollowsTime(rules, close, successors)
    ensures EarliestWins(rules, close, successors)
  {
    forall s, t | IsWinner(rules, close, successors, s) && t in successors && Qualifies(rules, close, t)
      ensures rules.parse(s.mergedAt).value <= rules.parse(t.mergedAt).value
    {
      if rules.parse(t.mergedAt).value < rules.parse(s.mergedAt).value { LessAsymmetric(t.mergedAt, s.mergedAt); }
    }
  }

  /** Two qualifying candidates out of text order: the later merge is matched. */
  lemma {:induction false} LaterMergeWins<H>(rules: Rules<H>, close: Close, a: Successor, b: Successor)
    requires Qualifies(rules, close, a) && Qualifies(rules, close, b)
    requires rules.parse(a.mergedAt).value < rules.parse(b.mergedAt).value && !Less(a.mergedAt, b.mergedAt)
    ensures IsWinner(rules, close, [a, b], b) && !EarliestWins(rules, close, [a, b])
    ensures MatchRetroSuccessors(rules, close, [a, b]) == Some(MatchOf(rules, close, b))
  {
    LessConnected(a.mergedAt, b.mergedAt);
    assert a in [a, b] && IsWinner(rules, close, [a, b], b);
    MatchIsWinnersMatch(rules, close, [a, b]);
    var m := MatchRetroSuccessors(rules, close, [a, b]);
    var w :| IsWinner(rules, close, [a, b], w) && m.value == MatchOf(rules, close, w);
    LessAsymmetric(b.mergedAt, a.mergedAt);
    assert w == b;
  }

  ghost predicate DrawnFrom(some: seq<Successor>, all: seq<Successor>) {
    forall s :: s in some ==> s in all
  }

  /** The earliest qualifying merge wins in every list drawn from the candidates exactly when the qualifying
      merge timestamps are in text order where they are in time order. */
  lemma {:induction false} EarliestWinsIffTextFollowsTime<H>(rules: Rules<H>, close: Close, successors: seq<Successor>)
    ensures (forall some :: DrawnFrom(some, successors) ==> EarliestWins(rules, close, some))
       <==> TextFollowsTime(rules, close, successors)
  {
    if TextFollowsTime(rules, close, successors) {
      forall some | DrawnFrom(some, successors) ensures EarliestWins(rules, close, some) {
        WinnerMergedFirst(rules, close, some);
      }
    } else {
      var a, b :| a in successors && b in successors && Qualifies(rules, close, a) && Qualifies(rules, close, b)
        && rules.parse(a.mergedAt).value < rules.parse(b.mergedAt).value && !Less(a.mergedAt, b.mergedAt);
      LaterMergeWins(rules, close, a, b);
      assert DrawnFrom([a, b], successors);
    }
  }

  const MARCH_FIRST := "2026-03-01T"
  const EIGHT_UTC := MARCH_FIRST + "10:00:00+02:00"
  const NINE_UTC := MARCH_FIRST + "09:00:00Z"

  /** A merge at eight, written with an offset, loses to one at nine. */
  lemma {:induction false} OffsetTimestampLoses<H>(rules: Rules<H>, close: Close, early: Successor, late: Successor)
    requires rules.parse(EIGHT_UTC) == Some(1772352000000) && rules.parse(NINE_UTC) == Some(1772355600000)
    requires early.mergedAt == EIGHT_UTC && late.mergedAt == NINE_UTC
    requires Qualifies(rules, close, early) && Qualifies(rules, close, late)
    ensures MatchRetroSuccessors(rules, close, [early, late]) == Some(MatchOf(rules, close, late))
    ensures !EarliestWins(rules, close, [early, late])
  {
    NineComesFirst();
    LaterMergeWins(rules, close, early, late);
  }

  lemma {:induction false} NineComesFirst()
    ensures !Less(EIGHT_UTC, NINE_UTC)
  {
    CommonPrefix(MARCH_FIRST, "10:00:00+02:00", "09:00:00Z");
  }

  lemma {:induction false} CommonPrefix(p: string, a: string, b: string)
    ensures Less(p + a, p + b) <==> Less(a, b)
  {
    if p == "" {
      assert p + a == a && p + b == b;
    } else {
      assert (p + a)[1..] == p[1..] + a && (p + b)[1..] == p[1..] + b;
      CommonPrefix(p[1..], a, b);
      LessIrreflexive([p[0]]);
    }
  }
}
