/** A database engine for the statements of the calibration backfill: it reads the column list, the VALUES and the
    conflict clause from the text alone (scripts/backfill-calibration-corpus-core.ts). */
module SqlEngine {
  import opened Text
  import opened AuditRows
  import opened SqlText
  import opened UpsertStore

  // ---------- reading a statement ----------

  /** Columns of the tuples, the tuples, and the columns that a conflict overwrites. */
  datatype Insert = Insert(columns: seq<string>, tuples: seq<seq<string>>, updated: seq<string>)

  const INTO_EVENTS := "INSERT INTO audit_events ("
  const VALUES_OF := ") VALUES "
  const DO_UPDATE := " ON CONFLICT(id) DO UPDATE SET "

  predicate EndsName(c: char) { c == ' ' || c == ',' || c == ')' }

  predicate IsName(s: string) { s != "" && ' ' !in s && ',' !in s && ')' !in s }

  /** A name runs to a blank, a comma, a parenthesis or the end. */
  function ReadName(s: string): (r: Read<string>)
    ensures r.Read? && |r.value| + |r.rest| == |s|
  {
    if s == "" || EndsName(s[0]) then Read("", s)
    else
      var r := ReadName(s[1..]);
      Read([s[0]] + r.value, r.rest)
  }

  /** Names separated by a comma and a space. */
  function ReadNames(s: string): (r: Read<seq<string>>)
    ensures r.Read? ==> |r.rest| <= |s|
    decreases |s|
  {
    var first := ReadName(s);
    if ", " <= first.rest then
      var more := ReadNames(first.rest[2..]);
      if more.NoRead? then NoRead else Read([first.value] + more.value, more.rest)
    else Read([first.value], first.rest)
  }

  const EXCLUDED := " = excluded."

  /** `x = excluded.x` assignments up to the end; a column may only take its own new value. */
  function ReadAssignments(s: string): Option<seq<string>>
    decreases |s|
  {
    var name := ReadName(s);
    if !(EXCLUDED <= name.rest) then None
    else
      var value := ReadName(name.rest[|EXCLUDED|..]);
      if value.value != name.value then None
      else if value.rest == "" then Some([name.value])
      else if !(", " <= value.rest) then None
      else
        var more := ReadAssignments(value.rest[2..]);
        if more.None? then None else Some([name.value] + more.value)
  }

  function ReadInsert(s: string): Option<Insert> {
    if !(INTO_EVENTS <= s) then None
    else
      var columns := ReadNames(s[|INTO_EVENTS|..]);
      if columns.NoRead? || !(VALUES_OF <= columns.rest) then None
      else ReadBehindColumns(columns.value, columns.rest[|VALUES_OF|..])
  }

  /** The tuples and the conflict clause. */
  function ReadBehindColumns(columns: seq<string>, s: string): Option<Insert> {
    var tuples := ReadValues(s);
    if tuples.NoRead? || !(DO_UPDATE <= tuples.rest) then None
    else
      var updated := ReadAssignments(tuples.rest[|DO_UPDATE|..]);
      if updated.None? then None else Some(Insert(columns, tuples.value, updated.value))
  }

  // ---------- running it ----------

  /** The field of a tuple under a column; a column that is not listed stays empty. */
  function Field(columns: seq<string>, fields: seq<string>, name: string): string
    requires |columns| == |fields|
  {
    if columns == [] then "" else if columns[0] == name then fields[0] else Field(columns[1..], fields[1..], name)
  }

  function RowOf(columns: seq<string>, fields: seq<string>): AuditRow
    requires |columns| == |fields|
  {
    AuditRow(Field(columns, fields, "id"), Field(columns, fields, "event_type"), Field(columns, fields, "actor"),
             Field(columns, fields, "target_key"), Field(columns, fields, "outcome"), Field(columns, fields, "detail"),
             Field(columns, fields, "metadata_json"), Field(columns, fields, "created_at"))
  }

  /** `SET name = excluded.name`. */
  function SetColumn(held: AuditRow, excluded: AuditRow, name: string): AuditRow {
    if name == "event_type" then held.(eventType := excluded.eventType)
    else if name == "actor" then held.(actor := excluded.actor)
    else if name == "target_key" then held.(targetKey := excluded.targetKey)
    else if name == "outcome" then held.(outcome := excluded.outcome)
    else if name == "detail" then held.(detail := excluded.detail)
    else if name == "metadata_json" then held.(metadataJson := excluded.metadataJson)
    else if name == "created_at" then held.(createdAt := excluded.createdAt)
    else held
  }

  function SetColumns(held: AuditRow, excluded: AuditRow, names: seq<string>): AuditRow
    decreases |names|
  {
    if names == [] then held else SetColumns(SetColumn(held, excluded, names[0]), excluded, names[1..])
  }

  function InsertRow(table: Table, row: AuditRow, updated: seq<string>): Table {
    table[row.id := if row.id in table then SetColumns(table[row.id], row, updated) else row]
  }

  /** One tuple after the other. A tuple of the wrong length fails the statement. */
  function InsertTuples(table: Table, columns: seq<string>, tuples: seq<seq<string>>, updated: seq<string>)
    : Option<Table>
  {
    if tuples == [] then Some(table)
    else
      var before := InsertTuples(table, columns, tuples[..|tuples| - 1], updated);
      var fields := tuples[|tuples| - 1];
      if before.None? || |fields| != |columns| then None
      else Some(InsertRow(before.value, RowOf(columns, fields), updated))
  }

  function RunStatement(table: Table, text: string): Option<Table> {
    var insert := ReadInsert(text);
    if insert.None? then None
    else InsertTuples(table, insert.value.columns, insert.value.tuples, insert.value.updated)
  }

  function RunStatements(table: Table, texts: seq<string>): Option<Table>
    decreases |texts|
  {
    if texts == [] then Some(table)
    else
      var next := RunStatement(table, texts[0]);
      if next.None? then None else RunStatements(next.value, texts[1..])
  }

  // ---------- the printed statement is read back ----------

  lemma {:induction false} ReadNameOf(name: string, rest: string)
    requires ' ' !in name && ',' !in name && ')' !in name && (rest == "" || EndsName(rest[0]))
    ensures ReadName(name + rest) == Read(name, rest)
  {
    if name == "" {
      assert name + rest == rest;
    } else {
      assert (name + rest)[1..] == name[1..] + rest;
      ReadNameOf(name[1..], rest);
      assert name == [name[0]] + name[1..];
    }
  }

  ghost predicate AreNames(ns: seq<string>) {
    ns != [] && forall i :: 0 <= i < |ns| ==> IsName(ns[i])
  }

  lemma {:induction false} ReadNamesOf(ns: seq<string>, rest: string)
    requires AreNames(ns) && rest != "" && rest[0] == ')'
    ensures ReadNames(Names(ns) + rest) == Read(ns, rest)
  {
    if |ns| == 1 {
      assert Names(ns) == ns[0] && ns == [ns[0]];
      ReadNameOf(ns[0], rest);
    } else {
      var after := ", " + (Names(ns[1..]) + rest);
      assert Names(ns) + rest == ns[0] + after;
      ReadNameOf(ns[0], after);
      assert after[2..] == Names(ns[1..]) + rest && ", " <= after;
      assert ns == [ns[0]] + ns[1..];
      ReadNamesOf(ns[1..], rest);
    }
  }

  lemma {:induction false} ReadOneAssignment(n: string, rest: string)
    requires IsName(n) && (rest == "" || EndsName(rest[0]))
    ensures var s := n + (EXCLUDED + (n + rest));
      var name := ReadName(s);
      name.value == n && EXCLUDED <= name.rest && ReadName(name.rest[|EXCLUDED|..]) == Read(n, rest)
  {
    ReadNameOf(n, EXCLUDED + (n + rest));
    assert (EXCLUDED + (n + rest))[|EXCLUDED|..] == n + rest;
    ReadNameOf(n, rest);
  }

  lemma {:induction false} LastAssignment(n: string)
    requires IsName(n)
    ensures ReadAssignments(n + (EXCLUDED + (n + ""))) == Some([n])
  {
    ReadOneAssignment(n, "");
  }

  lemma {:induction false} FurtherAssignment(n: string, more: string, ns: seq<string>)
    requires IsName(n) && ReadAssignments(more) == Some(ns)
    ensures ReadAssignments(n + (EXCLUDED + (n + (", " + more)))) == Some([n] + ns)
  {
    ReadOneAssignment(n, ", " + more);
    Behind(", ", more, ", " + more);
  }

  lemma {:induction false} ReadAssignmentsOf(ns: seq<string>)
    requires AreNames(ns)
    ensures ReadAssignments(Assignments(ns)) == Some(ns)
  {
    if |ns| == 1 {
      assert ns == [ns[0]] && Assignments(ns) == ns[0] + (EXCLUDED + (ns[0] + ""));
      LastAssignment(ns[0]);
    } else {
      ReadAssignmentsOf(ns[1..]);
      AssignmentsStep(ns);
      FurtherAssignment(ns[0], Assignments(ns[1..]), ns[1..]);
      assert ns == [ns[0]] + ns[1..];
    }
  }

  lemma {:induction false} AssignmentsStep(ns: seq<string>)
    requires |ns| > 1
    ensures Assignments(ns) == ns[0] + (EXCLUDED + (ns[0] + (", " + Assignments(ns[1..]))))
  {
  }

  lemma {:induction false} ColumnsAreNames()
    ensures AreNames(COLUMNS)
  {
  }

  lemma {:induction false} UpdatedAreNames()
    ensures AreNames(UPDATED)
  {
  }

  lemma {:induction false} ReadBehindPrintedColumns(columns: seq<string>, tuples: seq<seq<string>>,
          updated: seq<string>)
    requires AreNames(updated) && tuples != [] && forall i :: 0 <= i < |tuples| ==> tuples[i] != []
    ensures ReadBehindColumns(columns, Values(tuples) + (DO_UPDATE + Assignments(updated)))
      == Some(Insert(columns, tuples, updated))
  {
    var tail := DO_UPDATE + Assignments(updated);
    assert tail[0] == DO_UPDATE[0] == ' ';
    ReadPrintedValues(tuples, tail);
    Behind(DO_UPDATE, Assignments(updated), tail);
    ReadAssignmentsOf(updated);
  }

  lemma {:induction false} ReadPrintedInsert(columns: seq<string>, tuples: seq<seq<string>>, updated: seq<string>)
    requires AreNames(columns) && AreNames(updated)
    requires tuples != [] && forall i :: 0 <= i < |tuples| ==> tuples[i] != []
    ensures ReadInsert((INTO_EVENTS + Names(columns) + VALUES_OF) + Values(tuples) + (DO_UPDATE + Assignments(updated)))
      == Some(Insert(columns, tuples, updated))
  {
    var values := Values(tuples) + (DO_UPDATE + Assignments(updated));
    ReadPrintedColumns(columns, values);
    Regroup(INTO_EVENTS, Names(columns), VALUES_OF, Values(tuples), DO_UPDATE + Assignments(updated));
    ReadBehindPrintedColumns(columns, tuples, updated);
  }

  lemma {:induction false} ReadPrintedColumns(columns: seq<string>, rest: string)
    requires AreNames(columns)
    ensures ReadInsert(INTO_EVENTS + (Names(columns) + (VALUES_OF + rest))) == ReadBehindColumns(columns, rest)
  {
    Behind(INTO_EVENTS, Names(columns) + (VALUES_OF + rest), INTO_EVENTS + (Names(columns) + (VALUES_OF + rest)));
    assert (VALUES_OF + rest)[0] == VALUES_OF[0] == ')';
    ReadNamesOf(columns, VALUES_OF + rest);
    Behind(VALUES_OF, rest, VALUES_OF + rest);
  }

  lemma {:induction false} Regroup(a: string, b: string, c: string, d: string, e: string)
    ensures (a + b + c) + d + e == a + (b + (c + (d + e)))
  {
  }

  lemma {:induction false} Behind(head: string, rest: string, s: string)
    requires s == head + rest
    ensures head <= s && s[|head|..] == rest
  {
  }

  // ---------- the engine upserts ----------

  lemma {:induction false} FieldAt(columns: seq<string>, fields: seq<string>, i: nat)
    requires |columns| == |fields| && i < |columns| && forall j :: 0 <= j < i ==> columns[j] != columns[i]
    ensures Field(columns, fields, columns[i]) == fields[i]
  {
    if i > 0 { FieldAt(columns[1..], fields[1..], i - 1); }
  }

  lemma {:induction false} ColumnsDiffer(i: nat, j: nat)
    requires i < j < |COLUMNS|
    ensures COLUMNS[i] != COLUMNS[j]
  {
    var c := COLUMNS;
    assert |c[0]| == 2 && |c[1]| == 10 && |c[2]| == 5 && |c[3]| == 10 && |c[4]| == 7 && |c[5]| == 6 && |c[6]| == 13;
    assert |c[7]| == 10 && c[1][0] == 'e' && c[3][0] == 't' && c[7][0] == 'c';
  }

  /** The columns are listed in the order of the fields. */
  lemma {:induction false} ColumnsNameTheFields(row: AuditRow)
    ensures RowOf(COLUMNS, Columns(row)) == row
  {
    forall i | 0 <= i < 8 ensures Field(COLUMNS, Columns(row), COLUMNS[i]) == Columns(row)[i] {
      forall j | 0 <= j < i ensures COLUMNS[j] != COLUMNS[i] { ColumnsDiffer(j, i); }
      FieldAt(COLUMNS, Columns(row), i);
    }
    var c := COLUMNS;
    assert c[0] == "id" && c[1] == "event_type" && c[2] == "actor" && c[3] == "target_key" && c[4] == "outcome";
    assert c[5] == "detail" && c[6] == "metadata_json" && c[7] == "created_at";
  }

  /** The conflict clause updates the detail, the metadata and the time. */
  lemma {:induction false} ConflictUpdates(held: AuditRow, excluded: AuditRow)
    ensures SetColumns(held, excluded, UPDATED) ==
      held.(detail := excluded.detail, metadataJson := excluded.metadataJson, createdAt := excluded.createdAt)
  {
    assert UPDATED[1..] == ["metadata_json", "created_at"] && UPDATED[1..][1..] == ["created_at"];
    assert UPDATED[1..][1..][1..] == [];
    SetDetail(held, excluded);
    SetMetadata(held.(detail := excluded.detail), excluded);
    SetCreatedAt(held.(detail := excluded.detail, metadataJson := excluded.metadataJson), excluded);
  }

  lemma {:induction false} SetDetail(held: AuditRow, excluded: AuditRow)
    ensures SetColumn(held, excluded, "detail") == held.(detail := excluded.detail)
  {
    ColumnsDiffer(1, 5);
    ColumnsDiffer(2, 5);
    ColumnsDiffer(3, 5);
    ColumnsDiffer(4, 5);
  }

  lemma {:induction false} SetMetadata(held: AuditRow, excluded: AuditRow)
    ensures SetColumn(held, excluded, "metadata_json") == held.(metadataJson := excluded.metadataJson)
  {
    ColumnsDiffer(1, 6);
    ColumnsDiffer(2, 6);
    ColumnsDiffer(3, 6);
    ColumnsDiffer(4, 6);
    ColumnsDiffer(5, 6);
  }

  lemma {:induction false} SetCreatedAt(held: AuditRow, excluded: AuditRow)
    ensures SetColumn(held, excluded, "created_at") == held.(createdAt := excluded.createdAt)
  {
    ColumnsDiffer(1, 7);
    ColumnsDiffer(2, 7);
    ColumnsDiffer(3, 7);
    ColumnsDiffer(4, 7);
    ColumnsDiffer(5, 7);
    ColumnsDiffer(6, 7);
  }

  lemma {:induction false} InsertTuplesUpserts(table: Table, rows: seq<AuditRow>)
    ensures InsertTuples(table, COLUMNS, Tuples(rows), UPDATED) == Some(UpsertAll(table, rows))
  {
    if rows != [] {
      var n := |rows| - 1;
      var before := UpsertAll(table, rows[..n]);
      assert Tuples(rows)[..n] == Tuples(rows[..n]) && Tuples(rows)[n] == Columns(rows[n]);
      InsertTuplesUpserts(table, rows[..n]);
      ColumnsNameTheFields(rows[n]);
      if rows[n].id in before { ConflictUpdates(before[rows[n].id], rows[n]); }
    }
  }

  lemma {:induction false} PrintedAsRead()
    ensures INSERT_INTO == INTO_EVENTS && VALUES == VALUES_OF && ON_CONFLICT == DO_UPDATE
  {
  }

  /** Running the text of a printed statement upserts its rows. */
  lemma {:induction false} RunningPrintedStatement(table: Table, rows: seq<AuditRow>)
    requires rows != []
    ensures RunStatement(table, Statement(UPSERT, rows)) == Some(UpsertAll(table, rows))
  {
    PrintedAsRead();
    ColumnsAreNames();
    UpdatedAreNames();
    ReadPrintedInsert(COLUMNS, Tuples(rows), UPDATED);
    InsertTuplesUpserts(table, rows);
  }

  /** Running the script's statements, whatever the chunk size, upserts exactly the rows. */
  lemma {:induction false} RunningPrintedStatements(table: Table, rows: seq<AuditRow>, n: nat)
    requires n >= 1
    ensures RunStatements(table, Statements(UPSERT, Chunks(rows, n))) == Some(UpsertAll(table, rows))
    decreases |rows|
  {
    if rows != [] {
      var m := Clamp(n, |rows|);
      ChunksStep(rows, 0, n);
      assert rows[0..] == rows && rows == rows[0..m] + rows[m..];
      StatementsCons(UPSERT, rows[0..m], Chunks(rows[m..], n));
      RunningPrintedStatement(table, rows[0..m]);
      RunningPrintedStatements(UpsertAll(table, rows[0..m]), rows[m..], n);
      UpsertAppend(table, rows[0..m], rows[m..]);
    }
  }
}
