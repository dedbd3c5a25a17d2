/** Target keys `owner/repo#number` (scripts/backfill-calibration-corpus-phase2.ts). `toNumber` stands for
    `Number(...)`, None when the result is not finite. */
module TargetKeys {
  import opened Text
  import opened Sequences

  type Numeral = string -> Option<real>
  datatype Target = Target(repo: string, number: real)

  /** The last index of `c` in `s`, or -1. */
  function LastIndexOf(s: string, c: char): (i: int)
    ensures -1 <= i < |s|
    ensures i >= 0 ==> s[i] == c
    ensures forall j :: i < j < |s| ==> s[j] != c
  {
    if s == "" then -1
    else if s[|s| - 1] == c then |s| - 1
    else LastIndexOf(s[..|s| - 1], c)
  }

  function SplitTargetKey(toNumber: Numeral, key: string): (t: Option<Target>)
    ensures t.Some? ==> t.value.repo != "" && t.value.repo + "#" <= key && '#' !in key[|t.value.repo| + 1..]
  {
    var hash := LastIndexOf(key, '#');
    if hash <= 0 then None
    else
      var number := toNumber(key[hash + 1..]);
      assert key[..hash] + "#" == key[..hash + 1];
      if number.Some? then Some(Target(key[..hash], number.value)) else None
  }

  /** The splitter undoes how phase 1 builds a key, whatever the repository is called. */
  lemma {:induction false} SplitUndoesKey(toNumber: Numeral, repo: string, number: string)
    requires repo != "" && '#' !in number && toNumber(number).Some?
    ensures SplitTargetKey(toNumber, repo + "#" + number) == Some(Target(repo, toNumber(number).value))
  {
    var key := repo + "#" + number;
    var hash := LastIndexOf(key, '#');
    assert key[|repo|] == '#';
    assert forall j :: |repo| < j < |key| ==> key[j] == number[j - |repo| - 1];
    assert key[..hash] == repo && key[hash + 1..] == number;
  }

  /** A key splits exactly when its last hash follows a non-empty repository and precedes a finite number. */
  lemma {:induction false} SplitsIff(toNumber: Numeral, key: string, t: Target)
    ensures SplitTargetKey(toNumber, key) == Some(t) <==>
      exists i :: 0 < i < |key| && key[i] == '#' && '#' !in key[i + 1..]
        && t.repo == key[..i] && toNumber(key[i + 1..]) == Some(t.number)
  {
    var hash := LastIndexOf(key, '#');
    forall i | 0 < i < |key| && key[i] == '#' && '#' !in key[i + 1..] ensures i == hash {
      assert forall j :: i < j < |key| ==> key[j] == key[i + 1..][j - i - 1];
    }
    assert hash >= 0 ==> '#' !in key[hash + 1..];
  }

  /** The resume filter: no cursor (or an empty one) keeps every row, otherwise only later keys are kept. */
  predicate After(cursor: Option<string>, key: string) {
    cursor.None? || cursor.value == "" || Less(cursor.value, key)
  }

  ghost predicate StrictlySorted(keys: seq<string>) {
    forall i, j :: 0 <= i < j < |keys| ==> Less(keys[i], keys[j])
  }

  /** How many keys of a sorted list a cursor has passed. */
  function Passed(cursor: Option<string>, keys: seq<string>): (n: nat)
    ensures n <= |keys|
  {
    if keys == [] || After(cursor, keys[0]) then 0 else 1 + Passed(cursor, keys[1..])
  }

  lemma {:induction false} AfterIsUpward(cursor: Option<string>, a: string, b: string)
    requires After(cursor, a) && Less(a, b)
    ensures After(cursor, b)
  {
    if cursor.Some? && cursor.value != "" { LessTransitive(cursor.value, a, b); }
  }

  /** The cursor has passed exactly the first `Passed` keys. */
  lemma {:induction false} PassedIsPrefix(cursor: Option<string>, keys: seq<string>)
    requires StrictlySorted(keys)
    ensures forall i :: 0 <= i < |keys| ==> (After(cursor, keys[i]) <==> Passed(cursor, keys) <= i)
  {
    if keys != [] {
      PassedIsPrefix(cursor, keys[1..]);
      if After(cursor, keys[0]) {
        forall i | 0 < i < |keys| ensures After(cursor, keys[i]) { AfterIsUpward(cursor, keys[0], keys[i]); }
      }
    }
  }

  lemma {:induction false} PassedAtKey(keys: seq<string>, i: nat)
    requires StrictlySorted(keys) && i < |keys| && keys[i] != ""
    ensures Passed(Some(keys[i]), keys) == i + 1
  {
    PassedIsPrefix(Some(keys[i]), keys);
    LessIrreflexive(keys[i]);
    assert !After(Some(keys[i]), keys[i]);
    if i + 1 < |keys| { assert After(Some(keys[i]), keys[i + 1]); }
  }

  function IsAfter(cursor: Option<string>): string -> bool { (key: string) => After(cursor, key) }

  /** The resume filter keeps a suffix of the sorted rows. */
  lemma {:induction false} FilterIsSuffix(cursor: Option<string>, keys: seq<string>)
    requires StrictlySorted(keys)
    ensures Filter(IsAfter(cursor), keys) == keys[Passed(cursor, keys)..]
  {
    if keys != [] {
      var rest := keys[1..];
      FilterIsSuffix(cursor, rest);
      if After(cursor, keys[0]) {
        if rest != [] { AfterIsUpward(cursor, keys[0], rest[0]); }
        assert Passed(cursor, rest) == 0 && keys == [keys[0]] + rest;
      } else {
        assert rest[Passed(cursor, rest)..] == keys[1 + Passed(cursor, rest)..];
      }
    }
  }
}
