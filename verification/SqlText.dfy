/** The UPSERT statements of the calibration backfill as text (scripts/backfill-calibration-corpus-core.ts),
    and a reader for the string literals of section 5.3 of ISO/IEC 9075-2 and the VALUES lists around them. */
module SqlText {
  import opened Text
  import opened AuditRows

  // ---------- printing ----------

  /** `value.replace(/'/g, "''")`. */
  function DoubleQuotes(v: string): string {
    if v == "" then "" else (if v[0] == '\'' then "''" else [v[0]]) + DoubleQuotes(v[1..])
  }

  function SqlStringLiteral(v: string): string {
    "'" + DoubleQuotes(v) + "'"
  }

  function Columns(row: AuditRow): seq<string> {
    [row.id, row.eventType, row.actor, row.targetKey, row.outcome, row.detail, row.metadataJson, row.createdAt]
  }

  /** `fields.map(sqlStringLiteral).join(", ")`. */
  function Literals(fields: seq<string>): string {
    if fields == [] then ""
    else SqlStringLiteral(fields[0]) + if |fields| == 1 then "" else ", " + Literals(fields[1..])
  }

  function Tuple(fields: seq<string>): string {
    "(" + Literals(fields) + ")"
  }

  function Values(tuples: seq<seq<string>>): string {
    if tuples == [] then ""
    else Tuple(tuples[0]) + if |tuples| == 1 then "" else ", " + Values(tuples[1..])
  }

  const COLUMNS: seq<string> :=
    ["id", "event_type", "actor", "target_key", "outcome", "detail", "metadata_json", "created_at"]
  const UPDATED: seq<string> := ["detail", "metadata_json", "created_at"]

  /** `id, event_type, ...`. */
  function Names(columns: seq<string>): string {
    if columns == [] then "" else columns[0] + if |columns| == 1 then "" else ", " + Names(columns[1..])
  }

  /** `detail = excluded.detail, ...`. */
  function Assignments(columns: seq<string>): string {
    if columns == [] then ""
    else columns[0] + " = excluded." + columns[0] + if |columns| == 1 then "" else ", " + Assignments(columns[1..])
  }

  const INSERT_INTO := "INSERT INTO audit_events ("
  const VALUES := ") VALUES "
  const ON_CONFLICT := " ON CONFLICT(id) DO UPDATE SET "

  /** The fixed text around the VALUES list. */
  datatype Frame = Frame(head: string, tail: string)

  const UPSERT := Frame(INSERT_INTO + Names(COLUMNS) + VALUES, ON_CONFLICT + Assignments(UPDATED))

  function Tuples(rows: seq<AuditRow>): (ts: seq<seq<string>>)
    ensures |ts| == |rows| && forall i :: 0 <= i < |rows| ==> ts[i] == Columns(rows[i])
  {
    seq(|rows|, i requires 0 <= i < |rows| => Columns(rows[i]))
  }

  function Statement(frame: Frame, rows: seq<AuditRow>): string {
    frame.head + Values(Tuples(rows)) + frame.tail
  }

  // ---------- reading ----------

  datatype Read<T> = NoRead | Read(value: T, rest: string)

  /** The rest of a literal, after its opening quote. */
  function ReadBody(s: string): (r: Read<string>)
    ensures r.Read? ==> |r.rest| < |s|
  {
    if s == "" then NoRead
    else if s[0] != '\'' then
      var r := ReadBody(s[1..]);
      if r.NoRead? then NoRead else Read([s[0]] + r.value, r.rest)
    else if |s| > 1 && s[1] == '\'' then
      var r := ReadBody(s[2..]);
      if r.NoRead? then NoRead else Read("'" + r.value, r.rest)
    else Read("", s[1..])
  }

  function ReadLiteral(s: string): (r: Read<string>)
    ensures r.Read? ==> |r.rest| < |s|
  {
    if s != "" && s[0] == '\'' then ReadBody(s[1..]) else NoRead
  }

  /** Literals separated by a comma and a space, as many as there are. */
  function ReadLiterals(s: string): (r: Read<seq<string>>)
    ensures r.Read? ==> |r.rest| < |s|
    decreases |s|
  {
    var first := ReadLiteral(s);
    if first.NoRead? then NoRead
    else if ", " <= first.rest then
      var more := ReadLiterals(first.rest[2..]);
      if more.NoRead? then NoRead else Read([first.value] + more.value, more.rest)
    else Read([first.value], first.rest)
  }

  function ReadTuple(s: string): (r: Read<seq<string>>)
    ensures r.Read? ==> |r.rest| < |s|
  {
    if s == "" || s[0] != '(' then NoRead
    else
      var fields := ReadLiterals(s[1..]);
      if fields.NoRead? || fields.rest == "" || fields.rest[0] != ')' then NoRead
      else Read(fields.value, fields.rest[1..])
  }

  function ReadValues(s: string): (r: Read<seq<seq<string>>>)
    ensures r.Read? ==> |r.rest| < |s|
    decreases |s|
  {
    var first := ReadTuple(s);
    if first.NoRead? then NoRead
    else if ", " <= first.rest then
      var more := ReadValues(first.rest[2..]);
      if more.NoRead? then NoRead else Read([first.value] + more.value, more.rest)
    else Read([first.value], first.rest)
  }

  function ToRow(f: seq<string>): AuditRow
    requires |f| == 8
  {
    AuditRow(f[0], f[1], f[2], f[3], f[4], f[5], f[6], f[7])
  }

  /** The rows of tuples with a field for each column. */
  function ToRows(tuples: seq<seq<string>>): Option<seq<AuditRow>> {
    if tuples == [] then Some([])
    else
      var more := ToRows(tuples[1..]);
      if |tuples[0]| != 8 || more.None? then None else Some([ToRow(tuples[0])] + more.value)
  }

  /** The rows of one whole statement. */
  function ReadStatement(frame: Frame, s: string): Option<seq<AuditRow>> {
    if !(frame.head <= s) then None
    else
      var values := ReadValues(s[|frame.head|..]);
      if values.NoRead? || values.rest != frame.tail then None else ToRows(values.value)
  }

  // ---------- round trips ----------

  /** What follows a literal in a statement is never another quote. */
  ghost predicate EndsLiteral(rest: string) {
    rest != "" && rest[0] != '\''
  }

  lemma {:induction false} ReadPrintedBody(v: string, rest: string)
    requires EndsLiteral(rest)
    ensures ReadBody(DoubleQuotes(v) + "'" + rest) == Read(v, rest)
  {
    if v == "" {
      assert (DoubleQuotes(v) + "'" + rest)[1..] == rest;
    } else {
      Reassociate(v, rest);
      ReadBodyStep(v, "'" + rest);
      Reassociate(v[1..], rest);
      ReadPrintedBody(v[1..], rest);
      assert [v[0]] + v[1..] == v;
    }
  }

  lemma {:induction false} Reassociate(v: string, rest: string)
    ensures DoubleQuotes(v) + "'" + rest == DoubleQuotes(v) + ("'" + rest)
  {
  }

  function Prepend(c: char, r: Read<string>): Read<string> {
    if r.NoRead? then NoRead else Read([c] + r.value, r.rest)
  }

  lemma {:induction false} ReadDoubledQuote(tail: string)
    ensures ReadBody("''" + tail) == Prepend('\'', ReadBody(tail))
  {
    assert ("''" + tail)[2..] == tail;
  }

  lemma {:induction false} ReadPlainCharacter(c: char, tail: string)
    requires c != '\''
    ensures ReadBody([c] + tail) == Prepend(c, ReadBody(tail))
  {
    assert ([c] + tail)[1..] == tail;
  }

  /** A character is read back, its quote doubled or not. */
  lemma {:induction false} ReadBodyStep(v: string, end: string)
    requires v != ""
    ensures ReadBody(DoubleQuotes(v) + end) == Prepend(v[0], ReadBody(DoubleQuotes(v[1..]) + end))
  {
    var tail := DoubleQuotes(v[1..]) + end;
    if v[0] == '\'' {
      assert DoubleQuotes(v) + end == "''" + tail;
      ReadDoubledQuote(tail);
    } else {
      assert DoubleQuotes(v) + end == [v[0]] + tail;
      ReadPlainCharacter(v[0], tail);
    }
  }

  /** For every string, the reader undoes the printer. */
  lemma {:induction false} ReadPrintedLiteral(v: string, rest: string)
    requires EndsLiteral(rest)
    ensures ReadLiteral(SqlStringLiteral(v) + rest) == Read(v, rest)
  {
    assert (SqlStringLiteral(v) + rest)[1..] == DoubleQuotes(v) + "'" + rest;
    ReadPrintedBody(v, rest);
  }

  lemma {:induction false} ReadPrintedLiterals(fields: seq<string>, rest: string)
    requires fields != [] && rest != "" && rest[0] == ')'
    ensures ReadLiterals(Literals(fields) + rest) == Read(fields, rest)
  {
    if |fields| == 1 {
      assert Literals(fields) == SqlStringLiteral(fields[0]) && fields == [fields[0]];
      ReadPrintedLiteral(fields[0], rest);
    } else {
      var after := ", " + (Literals(fields[1..]) + rest);
      assert Literals(fields) + rest == SqlStringLiteral(fields[0]) + after;
      ReadPrintedLiteral(fields[0], after);
      assert after[2..] == Literals(fields[1..]) + rest && ", " <= after;
      assert fields == [fields[0]] + fields[1..];
      ReadPrintedLiterals(fields[1..], rest);
    }
  }

  lemma {:induction false} ReadPrintedTuple(fields: seq<string>, rest: string)
    requires fields != []
    ensures ReadTuple(Tuple(fields) + rest) == Read(fields, rest)
  {
    var after := ")" + rest;
    assert (Tuple(fields) + rest)[1..] == Literals(fields) + after;
    ReadPrintedLiterals(fields, after);
    assert after[1..] == rest;
  }

  lemma {:induction false} ReadPrintedValues(tuples: seq<seq<string>>, rest: string)
    requires tuples != [] && !(", " <= rest) && forall i :: 0 <= i < |tuples| ==> tuples[i] != []
    ensures ReadValues(Values(tuples) + rest) == Read(tuples, rest)
  {
    if |tuples| == 1 {
      assert Values(tuples) == Tuple(tuples[0]) && tuples == [tuples[0]];
      ReadPrintedTuple(tuples[0], rest);
    } else {
      var after := ", " + (Values(tuples[1..]) + rest);
      assert Values(tuples) + rest == Tuple(tuples[0]) + after;
      ReadPrintedTuple(tuples[0], after);
      assert after[2..] == Values(tuples[1..]) + rest && ", " <= after;
      assert tuples == [tuples[0]] + tuples[1..];
      ReadPrintedValues(tuples[1..], rest);
    }
  }

  lemma {:induction false} ToRowsOfTuples(rows: seq<AuditRow>)
    ensures ToRows(Tuples(rows)) == Some(rows)
  {
    if rows != [] {
      assert Tuples(rows)[1..] == Tuples(rows[1..]) && rows == [rows[0]] + rows[1..];
      ToRowsOfTuples(rows[1..]);
    }
  }

  lemma {:induction false} ReadPrintedStatement(frame: Frame, rows: seq<AuditRow>)
    requires rows != [] && !(", " <= frame.tail)
    ensures ReadStatement(frame, Statement(frame, rows)) == Some(rows)
  {
    var tuples := Tuples(rows);
    assert Statement(frame, rows) == frame.head + (Values(tuples) + frame.tail);
    assert Statement(frame, rows)[|frame.head|..] == Values(tuples) + frame.tail;
    ReadPrintedValues(tuples, frame.tail);
    ToRowsOfTuples(rows);
  }

  // ---------- chunking ----------

  function ChunkLength(chunkSize: int): (n: nat)
    ensures n >= 1
  {
    if chunkSize < 1 then 1 else chunkSize
  }

  /** The rows that each statement carries. */
  function Chunks(rows: seq<AuditRow>, n: nat): seq<seq<AuditRow>>
    requires n >= 1
  {
    if rows == [] then [] else if |rows| <= n then [rows] else [rows[..n]] + Chunks(rows[n..], n)
  }

  function Statements(frame: Frame, chunks: seq<seq<AuditRow>>): seq<string> {
    if chunks == [] then [] else [Statement(frame, chunks[0])] + Statements(frame, chunks[1..])
  }

  /** One statement per chunk. */
  method BuildBackfillInsertStatements(frame: Frame, rows: seq<AuditRow>, chunkSize: int)
    returns (statements: seq<string>)
    ensures statements == Statements(frame, Chunks(rows, ChunkLength(chunkSize)))
  {
    statements := [];
    var step := if chunkSize < 1 then 1 else chunkSize;
    var start := 0;
    assert rows[0..] == rows;
    while start < |rows|
      invariant 0 <= start
      invariant statements + Remaining(frame, rows, start, step) == Statements(frame, Chunks(rows, step))
      decreases |rows| - start
    {
      var chunk := rows[start..Clamp(start + step, |rows|)];
      RemainingStep(frame, rows, start, step, statements);
      statements := statements + [Statement(frame, chunk)];
      start := start + step;
    }
  }

  /** The statements that are still to be printed at `start`. */
  ghost function Remaining(frame: Frame, rows: seq<AuditRow>, start: nat, n: nat): seq<string>
    requires n >= 1
  {
    Statements(frame, Chunks(rows[Clamp(start, |rows|)..], n))
  }

  lemma {:induction false} RemainingStep(frame: Frame, rows: seq<AuditRow>, start: nat, n: nat, printed: seq<string>)
    requires n >= 1 && start < |rows|
    ensures printed + Remaining(frame, rows, start, n)
      == printed + [Statement(frame, rows[start..Clamp(start + n, |rows|)])] + Remaining(frame, rows, start + n, n)
  {
    var next := Clamp(start + n, |rows|);
    ChunksStep(rows, start, n);
    StatementsCons(frame, rows[start..next], Chunks(rows[next..], n));
  }

  lemma {:induction false} ChunkSizes(rows: seq<AuditRow>, n: nat, i: nat)
    requires n >= 1 && i < |Chunks(rows, n)|
    ensures 1 <= |Chunks(rows, n)[i]| <= n && (i < |Chunks(rows, n)| - 1 ==> |Chunks(rows, n)[i]| == n)
  {
    if |rows| > n && i > 0 { ChunkSizes(rows[n..], n, i - 1); }
  }

  lemma {:induction false} ChunksStep(rows: seq<AuditRow>, start: nat, n: nat)
    requires n >= 1 && start < |rows|
    ensures var next := Clamp(start + n, |rows|);
      Chunks(rows[start..], n) == [rows[start..next]] + Chunks(rows[next..], n)
  {
    var rest := rows[start..];
    if |rest| <= n {
      assert rows[start..|rows|] == rest && rows[|rows|..] == [];
    } else {
      assert rest[..n] == rows[start..start + n] && rest[n..] == rows[start + n..];
    }
  }

  function Clamp(i: nat, n: nat): nat { if i < n then i else n }

  function ReadAll(frame: Frame, statements: seq<string>): Option<seq<AuditRow>> {
    if statements == [] then Some([])
    else
      var first, more := ReadStatement(frame, statements[0]), ReadAll(frame, statements[1..]);
      if first.None? || more.None? then None else Some(first.value + more.value)
  }

  lemma {:induction false} ReadAllChunks(frame: Frame, rows: seq<AuditRow>, n: nat)
    requires n >= 1 && !(", " <= frame.tail)
    ensures ReadAll(frame, Statements(frame, Chunks(rows, n))) == Some(rows)
  {
    if rows != [] {
      var m := Clamp(n, |rows|);
      ChunksStep(rows, 0, n);
      assert rows[0..] == rows && rows == rows[..m] + rows[m..];
      ReadPrintedStatement(frame, rows[0..m]);
      ReadAllChunks(frame, rows[m..], n);
      StatementsCons(frame, rows[0..m], Chunks(rows[m..], n));
    }
  }

  lemma {:induction false} StatementsCons(frame: Frame, chunk: seq<AuditRow>, chunks: seq<seq<AuditRow>>)
    ensures Statements(frame, [chunk] + chunks) == [Statement(frame, chunk)] + Statements(frame, chunks)
  {
    assert ([chunk] + chunks)[1..] == chunks;
  }

  lemma {:induction false} TailEndsValues()
    ensures !(", " <= UPSERT.tail)
  {
    assert UPSERT.tail[0] == ON_CONFLICT[0] == ' ';
  }

  /** For every row list and every chunk size, zero and negative included, reading the script's statements back
      gives the rows exactly. Each statement carries at least one row and no more than the chunk size, or one if that
      is not positive, and all but the last are full. */
  lemma {:induction false} StatementsRoundTrip(rows: seq<AuditRow>, chunkSize: int)
    ensures ReadAll(UPSERT, Statements(UPSERT, Chunks(rows, ChunkLength(chunkSize)))) == Some(rows)
    ensures var chunks, n := Chunks(rows, ChunkLength(chunkSize)), if chunkSize < 1 then 1 else chunkSize;
      forall i :: 0 <= i < |chunks| ==> 1 <= |chunks[i]| <= n && (i < |chunks| - 1 ==> |chunks[i]| == n)
  {
    var chunks, n := Chunks(rows, ChunkLength(chunkSize)), if chunkSize < 1 then 1 else chunkSize;
    forall i | 0 <= i < |chunks| ensures 1 <= |chunks[i]| <= n && (i < |chunks| - 1 ==> |chunks[i]| == n) {
      ChunkSizes(rows, ChunkLength(chunkSize), i);
    }
    TailEndsValues();
    ReadAllChunks(UPSERT, rows, ChunkLength(chunkSize));
  }
}
