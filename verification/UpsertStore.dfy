/** Executing the backfill's UPSERT statements on a table keyed by id
    (scripts/backfill-calibration-corpus-core.ts). */
module UpsertStore {
  import opened Text
  import opened AuditRows
  import opened SqlText
  import opened CorpusSynthesis

  type Table = map<string, AuditRow>

  /** `INSERT ... ON CONFLICT(id) DO UPDATE SET detail, metadata_json, created_at`. */
  function Upserted(table: Table, row: AuditRow): AuditRow {
    if row.id in table
    then table[row.id].(detail := row.detail, metadataJson := row.metadataJson, createdAt := row.createdAt)
    else row
  }

  function UpsertAll(table: Table, rows: seq<AuditRow>): Table {
    if rows == [] then table
    else
      var before := UpsertAll(table, rows[..|rows| - 1]);
      before[rows[|rows| - 1].id := Upserted(before, rows[|rows| - 1])]
  }

  /** Executing a statement text: its VALUES in order. */
  function Execute(frame: Frame, table: Table, statement: string): Option<Table> {
    var rows := ReadStatement(frame, statement);
    if rows.None? then None else Some(UpsertAll(table, rows.value))
  }

  function ExecuteAll(frame: Frame, table: Table, statements: seq<string>): Option<Table>
    decreases |statements|
  {
    if statements == [] then Some(table)
    else
      var next := Execute(frame, table, statements[0]);
      if next.None? then None else ExecuteAll(frame, next.value, statements[1..])
  }

  lemma {:induction false} UpsertAppend(table: Table, a: seq<AuditRow>, b: seq<AuditRow>)
    ensures UpsertAll(table, a + b) == UpsertAll(UpsertAll(table, a), b)
  {
    if b == [] {
      assert a + b == a;
    } else {
      var n := |b| - 1;
      assert (a + b)[..|a + b| - 1] == a + b[..n] && (a + b)[|a + b| - 1] == b[n];
      UpsertAppend(table, a, b[..n]);
    }
  }

  /** Executing statements upserts the rows that they carry. */
  lemma {:induction false} ExecutingIsUpserting(frame: Frame, table: Table, statements: seq<string>,
          rows: seq<AuditRow>)
    requires ReadAll(frame, statements) == Some(rows)
    ensures ExecuteAll(frame, table, statements) == Some(UpsertAll(table, rows))
    decreases |statements|
  {
    if statements != [] {
      var first, more := ReadStatement(frame, statements[0]).value, ReadAll(frame, statements[1..]).value;
      ExecutingIsUpserting(frame, UpsertAll(table, first), statements[1..], more);
      UpsertAppend(table, first, more);
    }
  }

  /** Executing the printed statements upserts exactly the rows, whatever the chunk size. */
  lemma {:induction false} ExecutingPrintedStatements(frame: Frame, table: Table, rows: seq<AuditRow>, n: nat)
    requires n >= 1 && !(", " <= frame.tail)
    ensures ExecuteAll(frame, table, Statements(frame, Chunks(rows, n))) == Some(UpsertAll(table, rows))
  {
    ReadAllChunks(frame, rows, n);
    ExecutingIsUpserting(frame, table, Statements(frame, Chunks(rows, n)), rows);
  }

  // ---------- what distinct ids give ----------

  ghost predicate HasId(rows: seq<AuditRow>, id: string) {
    exists i :: 0 <= i < |rows| && rows[i].id == id
  }

  /** Each row is upserted onto what the table held for it; every other row is untouched. */
  ghost predicate UpsertedExactly(table: Table, rows: seq<AuditRow>, after: Table) {
    && (forall id :: id in after <==> id in table || HasId(rows, id))
    && (forall id :: id in table && !HasId(rows, id) ==> after[id] == table[id])
    && (forall i :: 0 <= i < |rows| ==> rows[i].id in after && after[rows[i].id] == Upserted(table, rows[i]))
  }

  lemma {:induction false} UpsertOneMore(table: Table, rows: seq<AuditRow>, mid: Table)
    requires rows != [] && DistinctIds(rows)
    requires UpsertedExactly(table, rows[..|rows| - 1], mid)
    ensures var row := rows[|rows| - 1]; UpsertedExactly(table, rows, mid[row.id := Upserted(mid, row)])
  {
    var n := |rows| - 1;
    forall id ensures HasId(rows, id) <==> HasId(rows[..n], id) || id == rows[n].id { HasIdAppend(rows, id); }
    assert !HasId(rows[..n], rows[n].id);
    assert Upserted(mid, rows[n]) == Upserted(table, rows[n]);
    forall i | 0 <= i < n ensures mid[rows[i].id] == Upserted(table, rows[i]) && rows[i].id != rows[n].id {
      assert rows[..n][i] == rows[i];
    }
  }

  lemma {:induction false} UpsertEffect(table: Table, rows: seq<AuditRow>)
    requires DistinctIds(rows)
    ensures UpsertedExactly(table, rows, UpsertAll(table, rows))
  {
    if rows != [] {
      UpsertEffect(table, rows[..|rows| - 1]);
      UpsertOneMore(table, rows, UpsertAll(table, rows[..|rows| - 1]));
    }
  }

  lemma {:induction false} HasIdAppend(rows: seq<AuditRow>, id: string)
    requires rows != []
    ensures HasId(rows, id) <==> HasId(rows[..|rows| - 1], id) || id == rows[|rows| - 1].id
  {
    var n := |rows| - 1;
    if i :| 0 <= i < n && rows[..n][i].id == id { assert rows[i].id == id; }
    if i :| 0 <= i < |rows| && rows[i].id == id { assert i < n ==> rows[..n][i].id == id; }
  }

  /** The columns that the conflict clause does not update. */
  ghost predicate FixedColumnsAgree(a: AuditRow, b: AuditRow) {
    && a.id == b.id && a.eventType == b.eventType && a.actor == b.actor
    && a.targetKey == b.targetKey && a.outcome == b.outcome
  }

  ghost predicate FixedColumnsHeld(table: Table, rows: seq<AuditRow>) {
    forall i :: 0 <= i < |rows| && rows[i].id in table ==> FixedColumnsAgree(table[rows[i].id], rows[i])
  }

  ghost predicate Holds(table: Table, row: AuditRow) {
    row.id in table && table[row.id] == row
  }

  /** Full rows end up in the table exactly when the columns outside the conflict clause already agreed. */
  lemma {:induction false} FullRowsIffFixedColumnsAgree(table: Table, rows: seq<AuditRow>)
    requires DistinctIds(rows)
    requires forall id :: id in table ==> table[id].id == id
    ensures (forall i :: 0 <= i < |rows| ==> Holds(UpsertAll(table, rows), rows[i]))
       <==> FixedColumnsHeld(table, rows)
  {
    UpsertEffect(table, rows);
    var after := UpsertAll(table, rows);
    forall i | 0 <= i < |rows| && rows[i].id in table
      ensures after[rows[i].id] == rows[i] <==> FixedColumnsAgree(table[rows[i].id], rows[i])
    {
      assert after[rows[i].id] == Upserted(table, rows[i]);
    }
  }

  // ---------- restarting ----------

  /** Runs that each stop after some number of rows, in turn. */
  function Interrupted(table: Table, rows: seq<AuditRow>, stops: seq<nat>): Table
    requires forall i :: 0 <= i < |stops| ==> stops[i] <= |rows|
  {
    if stops == [] then table
    else UpsertAll(Interrupted(table, rows, stops[..|stops| - 1]), rows[..stops[|stops| - 1]])
  }

  lemma {:induction false} ExactIsUnique(table: Table, rows: seq<AuditRow>, a: Table, b: Table)
    requires UpsertedExactly(table, rows, a) && UpsertedExactly(table, rows, b)
    ensures a == b
  {
    assert a.Keys == b.Keys;
    forall id | id in a ensures a[id] == b[id] {
      if HasId(rows, id) {
        var i :| 0 <= i < |rows| && rows[i].id == id;
      }
    }
  }

  /** Upserting some of the rows first does not change what the others are upserted onto, nor what they become. */
  lemma {:induction false} PartialRow(table: Table, rows: seq<AuditRow>, k: nat, part: Table, i: nat)
    requires DistinctIds(rows) && k <= |rows| && i < |rows| && UpsertedExactly(table, rows[..k], part)
    ensures Upserted(part, rows[i]) == Upserted(table, rows[i])
  {
    if i < k {
      assert rows[..k][i] == rows[i];
    } else {
      assert !HasId(rows[..k], rows[i].id);
    }
  }

  lemma {:induction false} PartialThenExact(table: Table, rows: seq<AuditRow>, k: nat, part: Table, after: Table)
    requires DistinctIds(rows) && k <= |rows| && UpsertedExactly(table, rows[..k], part)
    requires UpsertedExactly(part, rows, after)
    ensures UpsertedExactly(table, rows, after)
  {
    forall id | HasId(rows[..k], id) ensures HasId(rows, id) {
      var i :| 0 <= i < k && rows[..k][i].id == id;
      assert rows[i].id == id;
    }
    forall i | 0 <= i < |rows| ensures after[rows[i].id] == Upserted(table, rows[i]) {
      PartialRow(table, rows, k, part, i);
    }
  }

  /** Interrupted runs change nothing that a full run would not overwrite. */
  lemma {:induction false} PartialThenFull(table: Table, rows: seq<AuditRow>, k: nat)
    requires DistinctIds(rows) && k <= |rows|
    ensures UpsertAll(UpsertAll(table, rows[..k]), rows) == UpsertAll(table, rows)
  {
    var part := UpsertAll(table, rows[..k]);
    UpsertEffect(table, rows[..k]);
    UpsertEffect(part, rows);
    UpsertEffect(table, rows);
    PartialThenExact(table, rows, k, part, UpsertAll(part, rows));
    ExactIsUnique(table, rows, UpsertAll(part, rows), UpsertAll(table, rows));
  }

  /** However often the run is stopped early, starting it again from the beginning reaches the same table;
      stopping at the end is the re-execution case. */
  lemma {:induction false} RestartReachesSameTable(table: Table, rows: seq<AuditRow>, stops: seq<nat>)
    requires DistinctIds(rows) && forall i :: 0 <= i < |stops| ==> stops[i] <= |rows|
    ensures UpsertAll(Interrupted(table, rows, stops), rows) == UpsertAll(table, rows)
  {
    if stops != [] {
      var n := |stops| - 1;
      RestartReachesSameTable(table, rows, stops[..n]);
      PartialThenFull(Interrupted(table, rows, stops[..n]), rows, stops[n]);
    }
  }

  /** The first statements carry the first rows. */
  lemma {:induction false} StatementPrefixIsRowPrefix(frame: Frame, statements: seq<string>, rows: seq<AuditRow>,
          m: nat)
    returns (k: nat)
    requires ReadAll(frame, statements) == Some(rows) && m <= |statements|
    ensures k <= |rows| && ReadAll(frame, statements[..m]) == Some(rows[..k])
    decreases m
  {
    k := 0;
    if m > 0 {
      var first, more := ReadStatement(frame, statements[0]).value, ReadAll(frame, statements[1..]).value;
      var j := StatementPrefixIsRowPrefix(frame, statements[1..], more, m - 1);
      k := |first| + j;
      assert statements[..m][1..] == statements[1..][..m - 1];
      assert rows[..k] == first + more[..j];
    }
  }

  /** The script's own statements for synthesized rows: stop after any number of them, run all of them again,
      and the table is as if they had run once. */
  lemma {:induction false} RestartedStatements(fmt: Formats, decisions: seq<DecisionRow>, table: Table, chunkSize: int,
          m: nat)
    returns (part: Table)
    requires m <= |Statements(UPSERT, Chunks(BackfillRows(fmt, decisions), ChunkLength(chunkSize)))|
    ensures var rows := BackfillRows(fmt, decisions);
      var statements := Statements(UPSERT, Chunks(rows, ChunkLength(chunkSize)));
      && ExecuteAll(UPSERT, table, statements[..m]) == Some(part)
      && ExecuteAll(UPSERT, part, statements) == Some(UpsertAll(table, rows))
  {
    var rows, n := BackfillRows(fmt, decisions), ChunkLength(chunkSize);
    var statements := Statements(UPSERT, Chunks(rows, n));
    TailEndsValues();
    ReadAllChunks(UPSERT, rows, n);
    var k := StatementPrefixIsRowPrefix(UPSERT, statements, rows, m);
    part := UpsertAll(table, rows[..k]);
    ExecutingIsUpserting(UPSERT, table, statements[..m], rows[..k]);
    ExecutingIsUpserting(UPSERT, part, statements, rows);
    EmittedIdsAreDistinct(fmt, decisions);
    PartialThenFull(table, rows, k);
  }

  ghost predicate IsCurrent(table: Table, row: AuditRow) {
    row.id in table && Upserted(table, row) == table[row.id]
  }

  /** Re-running phase 1 leaves the table alone exactly when every row is there with its detail, metadata and
      time. In particular it overwrites a metadata patch that phase 2 has applied since. */
  lemma {:induction false} RerunIsNoOpIff(table: Table, rows: seq<AuditRow>)
    requires DistinctIds(rows)
    ensures UpsertAll(table, rows) == table <==> forall i :: 0 <= i < |rows| ==> IsCurrent(table, rows[i])
  {
    UpsertEffect(table, rows);
    var after := UpsertAll(table, rows);
    if forall i :: 0 <= i < |rows| ==> IsCurrent(table, rows[i]) {
      assert UpsertedExactly(table, rows, table);
      ExactIsUnique(table, rows, after, table);
    } else {
      var i :| 0 <= i < |rows| && !IsCurrent(table, rows[i]);
      assert after[rows[i].id] == Upserted(table, rows[i]);
    }
  }

  // ---------- the synthesized rows ----------

  /** Across any two syntheses, rows with one id agree on the columns that are never updated. */
  lemma {:induction false} SynthesizedFixedColumns(fmt: Formats, xs: seq<Candidate>, ys: seq<Candidate>, i: nat, j: nat)
    requires i < 2 * |xs| && j < 2 * |ys| && Emit(PairOf(fmt), xs)[i].id == Emit(PairOf(fmt), ys)[j].id
    ensures FixedColumnsAgree(Emit(PairOf(fmt), xs)[i], Emit(PairOf(fmt), ys)[j])
  {
    EmittedColumns(fmt, xs, i);
    EmittedColumns(fmt, ys, j);
    IdDeterminesHalf(i, xs[i / 2].key, j, ys[j / 2].key);
  }

  /** Backfilling twice, from two different states of the ledger, into a table that held none of the ids: the
      second run leaves exactly its own full rows, and the rest is as the first run left it. */
  lemma {:induction false} LaterBackfillWins(fmt: Formats, table: Table, first: seq<DecisionRow>,
          second: seq<DecisionRow>)
    requires forall id :: id in table ==> table[id].id == id
    requires forall i :: 0 <= i < |BackfillRows(fmt, first)| ==> BackfillRows(fmt, first)[i].id !in table
    requires forall i :: 0 <= i < |BackfillRows(fmt, second)| ==> BackfillRows(fmt, second)[i].id !in table
    ensures var rows := BackfillRows(fmt, second);
      var before := UpsertAll(table, BackfillRows(fmt, first));
      var after := UpsertAll(before, rows);
      && (forall i :: 0 <= i < |rows| ==> rows[i].id in after && after[rows[i].id] == rows[i])
      && (forall id :: id in before && !HasId(rows, id) ==> id in after && after[id] == before[id])
  {
    var xs, ys := BackfillRows(fmt, first), BackfillRows(fmt, second);
    var before := UpsertAll(table, xs);
    EmittedIdsAreDistinct(fmt, first);
    EmittedIdsAreDistinct(fmt, second);
    UpsertEffect(table, xs);
    UpsertEffect(before, ys);
    KeyedAfter(table, xs, before);
    forall j | 0 <= j < |ys| && ys[j].id in before ensures FixedColumnsAgree(before[ys[j].id], ys[j]) {
      FixedByFirst(fmt, table, first, second, before, j);
    }
    FullRowsIffFixedColumnsAgree(before, ys);
  }

  lemma {:induction false} KeyedAfter(table: Table, rows: seq<AuditRow>, after: Table)
    requires UpsertedExactly(table, rows, after) && forall id :: id in table ==> table[id].id == id
    ensures forall id :: id in after ==> after[id].id == id
  {
    forall id | id in after ensures after[id].id == id {
      if HasId(rows, id) { var i :| 0 <= i < |rows| && rows[i].id == id; }
    }
  }

  lemma {:induction false} FixedByFirst(fmt: Formats, table: Table, first: seq<DecisionRow>, second: seq<DecisionRow>,
          before: Table, j: nat)
    requires UpsertedExactly(table, BackfillRows(fmt, first), before)
    requires j < |BackfillRows(fmt, second)| && BackfillRows(fmt, second)[j].id in before
    requires BackfillRows(fmt, second)[j].id !in table
    ensures FixedColumnsAgree(before[BackfillRows(fmt, second)[j].id], BackfillRows(fmt, second)[j])
  {
    var xs, ys := BackfillRows(fmt, first), BackfillRows(fmt, second);
    var i :| 0 <= i < |xs| && xs[i].id == ys[j].id;
    assert before[xs[i].id] == xs[i];
    SynthesizedFixedColumns(fmt, Winners(fmt, first), Winners(fmt, second), i, j);
  }
}
