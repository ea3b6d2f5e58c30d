/** The insert emitter of csv_to_mssql_sql.py (`build_inserts`): every row
    becomes a value tuple, and the rows are grouped, in row order, into
    multi-row INSERT statements of at most `batch_size` tuples each. Readers
    that parse the emitted text the way SQL Server does are the partners the
    emitter is proved against. */
module InsertEmitter {
  import opened Strings
  import opened Literals
  import opened Frames
  import opened Batching

  /** `[quote_value(row[c]) for c in df.columns]` */
  function RenderedValues(row: seq<Cell>): seq<string>
  {
    seq(|row|, c requires 0 <= c < |row| => QuoteValue(row[c]))
  }

  /** `"(" + ", ".join(values) + ")"` */
  function Tuple(row: seq<Cell>): string
  {
    "(" + Join(RenderedValues(row), ", ") + ")"
  }

  /** The tuple of every row, in row order. */
  function Tuples(rows: seq<seq<Cell>>): (r: seq<string>)
    ensures |r| == |rows|
    ensures forall i :: 0 <= i < |rows| ==> r[i] == Tuple(rows[i])
  {
    if rows == [] then [] else [Tuple(rows[0])] + Tuples(rows[1..])
  }

  /** How SQL Server reads the values of a tuple up to its closing
      parenthesis: value literals separated by `, `. Yields the cells and
      the text after the `)`. */
  function ReadTupleBody(t: string): (r: Option<(seq<Cell>, string)>)
    ensures r.Some? ==> |r.value.1| < |t|
    decreases |t|
  {
    match ReadValue(t)
    case None => None
    case Some((c, rest)) =>
      if rest != "" && rest[0] == ')' then Some(([c], rest[1..]))
      else if |rest| >= 2 && rest[..2] == ", " then
        match ReadTupleBody(rest[2..])
        case None => None
        case Some((cells, after)) => Some(([c] + cells, after))
      else None
  }

  /** How SQL Server reads the row tuple at the front of `t`: `()` or a
      parenthesised list of values. Yields the row and the text after it. */
  function ReadTuple(t: string): (r: Option<(seq<Cell>, string)>)
    ensures r.Some? ==> |r.value.1| < |t|
  {
    if t == "" || t[0] != '(' then None
    else if |t| >= 2 && t[1] == ')' then Some(([], t[2..]))
    else ReadTupleBody(t[1..])
  }

  lemma ReadTupleBodyLast(t: string, c: Cell, after: string)
    requires ReadValue(t) == Some((c, ")" + after))
    ensures ReadTupleBody(t) == Some(([c], after))
  {
    var rest := ")" + after;
    assert rest[0] == ')' && rest[1..] == after;
  }

  lemma ReadTupleBodyStep(t: string, c: Cell, tail: string, cells: seq<Cell>, after: string)
    requires ReadValue(t) == Some((c, ", " + tail))
    requires ReadTupleBody(tail) == Some((cells, after))
    ensures ReadTupleBody(t) == Some(([c] + cells, after))
  {
    var rest := ", " + tail;
    assert rest[0] == ',' && rest[..2] == ", " && rest[2..] == tail;
  }

  lemma RenderedValuesTail(row: seq<Cell>)
    requires row != []
    ensures RenderedValues(row)[0] == QuoteValue(row[0])
    ensures RenderedValues(row)[1..] == RenderedValues(row[1..])
  {
  }

  lemma ReadTupleBodySingle(row: seq<Cell>, rest: string)
    requires |row| == 1
    ensures ReadTupleBody(Join(RenderedValues(row), ", ") + (")" + rest)) == Some((row, rest))
  {
    RenderedValuesTail(row);
    JoinSingle(RenderedValues(row), ", ");
    ReadQuotedValue(row[0], ")" + rest);
    ReadTupleBodyLast(QuoteValue(row[0]) + (")" + rest), row[0], rest);
    assert [row[0]] == row;
  }

  lemma ValuesCons(row: seq<Cell>, rest: string)
    requires |row| > 1
    ensures Join(RenderedValues(row), ", ") + (")" + rest)
      == QuoteValue(row[0]) + (", " + (Join(RenderedValues(row[1..]), ", ") + (")" + rest)))
  {
    var more := Join(RenderedValues(row[1..]), ", ");
    RenderedValuesTail(row);
    JoinCons(RenderedValues(row), ", ");
    ConcatAssoc(QuoteValue(row[0]), ", " + more, ")" + rest);
    ConcatAssoc(", ", more, ")" + rest);
  }

  lemma ReadTupleBodyCons(row: seq<Cell>, rest: string)
    requires |row| > 1
    requires ReadTupleBody(Join(RenderedValues(row[1..]), ", ") + (")" + rest)) == Some((row[1..], rest))
    ensures ReadTupleBody(Join(RenderedValues(row), ", ") + (")" + rest)) == Some((row, rest))
  {
    var tail := Join(RenderedValues(row[1..]), ", ") + (")" + rest);
    ValuesCons(row, rest);
    ReadQuotedValue(row[0], ", " + tail);
    ReadTupleBodyStep(QuoteValue(row[0]) + (", " + tail), row[0], tail, row[1..], rest);
    assert [row[0]] + row[1..] == row;
  }

  /** The values of a non-empty row, then `)`, read back as the row's cells
      in column order, stopping right after the `)`. */
  lemma {:induction false} ReadTupleBodyOf(row: seq<Cell>, rest: string)
    requires row != []
    ensures ReadTupleBody(Join(RenderedValues(row), ", ") + (")" + rest)) == Some((row, rest))
    decreases |row|
  {
    if |row| == 1 {
      ReadTupleBodySingle(row, rest);
    } else {
      ReadTupleBodyOf(row[1..], rest);
      ReadTupleBodyCons(row, rest);
    }
  }

  lemma ValuesStart(row: seq<Cell>)
    requires row != []
    ensures Join(RenderedValues(row), ", ") != "" && Join(RenderedValues(row), ", ")[0] != ')'
  {
    var values := RenderedValues(row);
    RenderedValuesTail(row);
    QuoteValueStart(row[0]);
    if |row| == 1 {
      JoinSingle(values, ", ");
    } else {
      JoinCons(values, ", ");
    }
  }

  /** A row's tuple, whatever follows it, reads back as exactly that row
      and stops right after its closing parenthesis. */
  lemma TupleRoundTrip(row: seq<Cell>, rest: string)
    ensures ReadTuple(Tuple(row) + rest) == Some((row, rest))
  {
    var body := Join(RenderedValues(row), ", ");
    var t := "(" + (body + (")" + rest));
    ConcatAssoc("(" + body, ")", rest);
    ConcatAssoc("(", body, ")" + rest);
    assert Tuple(row) + rest == t;
    assert t[0] == '(' && t[1..] == body + (")" + rest);
    if row == [] {
      assert body == "";
      assert t[1] == ')' && t[2..] == rest;
    } else {
      ValuesStart(row);
      assert t[1] == body[0];
      ReadTupleBodyOf(row, rest);
    }
  }

  /** How SQL Server reads the VALUES list of an INSERT: tuples separated by
      `,` and a line break. Yields the rows and the text after the last tuple. */
  function ReadTupleList(t: string): (r: Option<(seq<seq<Cell>>, string)>)
    ensures r.Some? ==> |r.value.1| < |t|
    decreases |t|
  {
    match ReadTuple(t)
    case None => None
    case Some((row, rest)) =>
      if |rest| >= 2 && rest[..2] == ",\n" then
        match ReadTupleList(rest[2..])
        case None => None
        case Some((more, after)) => Some(([row] + more, after))
      else Some(([row], rest))
  }

  lemma ReadTupleListLast(t: string, row: seq<Cell>, rest: string)
    requires ReadTuple(t) == Some((row, rest))
    requires rest == [] || rest[0] != ','
    ensures ReadTupleList(t) == Some(([row], rest))
  {
  }

  lemma ReadTupleListStep(t: string, row: seq<Cell>, tail: string, more: seq<seq<Cell>>, after: string)
    requires ReadTuple(t) == Some((row, ",\n" + tail))
    requires ReadTupleList(tail) == Some((more, after))
    ensures ReadTupleList(t) == Some(([row] + more, after))
  {
    var rest := ",\n" + tail;
    assert rest[..2] == ",\n" && rest[2..] == tail;
  }

  lemma ReadTupleListSingle(rows: seq<seq<Cell>>, rest: string)
    requires |rows| == 1
    requires rest == [] || rest[0] != ','
    ensures ReadTupleList(Join(Tuples(rows), ",\n") + rest) == Some((rows, rest))
  {
    assert Tuples(rows) == [Tuple(rows[0])];
    JoinSingle(Tuples(rows), ",\n");
    TupleRoundTrip(rows[0], rest);
    ReadTupleListLast(Tuple(rows[0]) + rest, rows[0], rest);
    assert [rows[0]] == rows;
  }

  lemma ReadTupleListCons(rows: seq<seq<Cell>>, rest: string)
    requires |rows| > 1
    requires ReadTupleList(Join(Tuples(rows[1..]), ",\n") + rest) == Some((rows[1..], rest))
    ensures ReadTupleList(Join(Tuples(rows), ",\n") + rest) == Some((rows, rest))
  {
    var tuples := Tuples(rows);
    assert tuples == [Tuple(rows[0])] + Tuples(rows[1..]);
    var more := Join(Tuples(rows[1..]), ",\n");
    JoinCons(tuples, ",\n");
    var tail := more + rest;
    ConcatAssoc(Tuple(rows[0]), ",\n" + more, rest);
    ConcatAssoc(",\n", more, rest);
    TupleRoundTrip(rows[0], ",\n" + tail);
    ReadTupleListStep(Tuple(rows[0]) + (",\n" + tail), rows[0], tail, rows[1..], rest);
    assert [rows[0]] + rows[1..] == rows;
  }

  /** The tuples of a non-empty batch of rows, joined as `build_inserts`
      joins them, read back as those rows, in order, and the reader stops
      right after the last tuple. */
  lemma {:induction false} ReadTupleListOf(rows: seq<seq<Cell>>, rest: string)
    requires rows != []
    requires rest == [] || rest[0] != ','
    ensures ReadTupleList(Join(Tuples(rows), ",\n") + rest) == Some((rows, rest))
    decreases |rows|
  {
    if |rows| == 1 {
      ReadTupleListSingle(rows, rest);
    } else {
      ReadTupleListOf(rows[1..], rest);
      ReadTupleListCons(rows, rest);
    }
  }

  /** How SQL Server reads a list of bracketed identifiers separated by `, `. */
  function ParseIdentList(t: string): Option<seq<string>>
    decreases |t|
  {
    if t == "" || t[0] != '[' then (if t == "" then Some([]) else None)
    else match ScanDelimited(t[1..], ']')
      case None => None
      case Some((name, rest)) =>
        if rest == "" then Some([name])
        else if |rest| <= 2 || rest[..2] != ", " then None
        else match ParseIdentList(rest[2..])
          case None => None
          case Some(more) => Some([name] + more)
  }

  /** `", ".join(bracket_ident(c) for c in df.columns)` */
  function ColumnIdents(names: seq<string>): string
  {
    Join(seq(|names|, j requires 0 <= j < |names| => BracketIdent(names[j])), ", ")
  }

  lemma ParseIdentStep(name: string, more: string, names: seq<string>)
    requires |more| > 0
    requires ParseIdentList(more) == Some(names)
    ensures ParseIdentList(BracketIdent(name) + (", " + more)) == Some([name] + names)
  {
    var t := BracketIdent(name) + (", " + more);
    BracketIdentIsOneIdentifier(name, ", " + more);
    TailOfConcat(BracketIdent(name), ", " + more);
    var rest := ", " + more;
    assert |rest| > 2 && rest[..2] == ", " && rest[2..] == more;
  }

  lemma ParseIdentLast(name: string)
    ensures ParseIdentList(BracketIdent(name)) == Some([name])
  {
    BracketIdentIsOneIdentifier(name, "");
    assert BracketIdent(name) + "" == BracketIdent(name);
    assert BracketIdent(name)[1..] + "" == BracketIdent(name)[1..];
  }

  /** The bracketed names of the columns after the first. */
  lemma ColumnIdentsTail(names: seq<string>)
    requires |names| > 1
    ensures ColumnIdents(names) == BracketIdent(names[0]) + (", " + ColumnIdents(names[1..]))
  {
    var idents := seq(|names|, j requires 0 <= j < |names| => BracketIdent(names[j]));
    assert idents[1..] == seq(|names| - 1, j requires 0 <= j < |names| - 1 => BracketIdent(names[1..][j]));
    JoinCons(idents, ", ");
  }

  lemma ColumnIdentsStart(names: seq<string>)
    requires names != []
    ensures |ColumnIdents(names)| > 0 && ColumnIdents(names)[0] == '['
  {
    if |names| == 1 {
      JoinSingle(seq(|names|, j requires 0 <= j < |names| => BracketIdent(names[j])), ", ");
    } else {
      ColumnIdentsTail(names);
    }
  }

  /** The column list of an INSERT names every column, in order: reading it
      back gives the column names. */
  lemma {:induction false} ColumnIdentsRoundTrip(names: seq<string>)
    ensures ParseIdentList(ColumnIdents(names)) == Some(names)
    decreases |names|
  {
    if |names| == 1 {
      JoinSingle(seq(|names|, j requires 0 <= j < |names| => BracketIdent(names[j])), ", ");
      ParseIdentLast(names[0]);
      assert [names[0]] == names;
    } else if |names| > 1 {
      ColumnIdentsTail(names);
      ColumnIdentsRoundTrip(names[1..]);
      ColumnIdentsStart(names[1..]);
      ParseIdentStep(names[0], ColumnIdents(names[1..]), names[1..]);
      assert [names[0]] + names[1..] == names;
    }
  }

  /** What precedes the tuples of an INSERT statement. The table name is
      used verbatim. */
  function InsertHeader(table: string, idents: string): string
  {
    "INSERT INTO " + table + " (" + idents + ") VALUES\n"
  }

  /** What ends every INSERT statement. */
  const StatementEnd: string := ";\nGO"

  /** One multi-row INSERT statement for the tuples of one batch. */
  function InsertStatement(table: string, idents: string, batch: seq<string>): string
  {
    InsertHeader(table, idents) + Join(batch, ",\n") + StatementEnd
  }

  /** How SQL Server reads one INSERT statement with the given header:
      the header, the VALUES list, then `;` and `GO`. Yields the rows and
      the text after the statement. */
  function ReadInsert(t: string, header: string): (r: Option<(seq<seq<Cell>>, string)>)
    ensures r.Some? ==> |r.value.1| < |t|
  {
    if |t| < |header| || t[..|header|] != header then None
    else match ReadTupleList(t[|header|..])
      case None => None
      case Some((rows, rest)) =>
        if |rest| >= |StatementEnd| && rest[..|StatementEnd|] == StatementEnd then
          Some((rows, rest[|StatementEnd|..]))
        else None
  }

  /** How SQL Server reads a script of INSERT statements, one per line
      group: the rows of each statement, in order. */
  function ReadInserts(t: string, header: string): Option<seq<seq<seq<Cell>>>>
    decreases |t|
  {
    if t == "" then Some([])
    else match ReadInsert(t, header)
      case None => None
      case Some((rows, rest)) =>
        if rest == "" then Some([rows])
        else if rest[0] != '\n' then None
        else match ReadInserts(rest[1..], header)
          case None => None
          case Some(more) => Some([rows] + more)
  }

  lemma ReadInsertParts(t: string, header: string, body: string, rows: seq<seq<Cell>>, rest: string)
    requires t == header + (body + (StatementEnd + rest))
    requires ReadTupleList(body + (StatementEnd + rest)) == Some((rows, StatementEnd + rest))
    ensures ReadInsert(t, header) == Some((rows, rest))
  {
    assert t[..|header|] == header && t[|header|..] == body + (StatementEnd + rest);
    var r := StatementEnd + rest;
    assert r[..|StatementEnd|] == StatementEnd && r[|StatementEnd|..] == rest;
  }

  /** One statement for a non-empty batch reads back as that batch of rows
      and stops right after its `GO`. */
  lemma InsertStatementRoundTrip(table: string, idents: string, rows: seq<seq<Cell>>, rest: string)
    requires rows != []
    ensures ReadInsert(InsertStatement(table, idents, Tuples(rows)) + rest, InsertHeader(table, idents))
      == Some((rows, rest))
  {
    var header := InsertHeader(table, idents);
    var body := Join(Tuples(rows), ",\n");
    ConcatAssoc(header + body, StatementEnd, rest);
    ConcatAssoc(header, body, StatementEnd + rest);
    ReadTupleListOf(rows, StatementEnd + rest);
    ReadInsertParts(InsertStatement(table, idents, Tuples(rows)) + rest, header, body, rows, rest);
  }

  /** The statement of every batch of rows, in order. */
  function BatchStatements(table: string, idents: string, batches: seq<seq<seq<Cell>>>): (r: seq<string>)
    ensures |r| == |batches|
  {
    if batches == [] then []
    else [InsertStatement(table, idents, Tuples(batches[0]))] + BatchStatements(table, idents, batches[1..])
  }

  lemma {:induction false} BatchStatementsSnoc(table: string, idents: string, done: seq<seq<seq<Cell>>>, batch: seq<seq<Cell>>)
    ensures BatchStatements(table, idents, done + [batch])
      == BatchStatements(table, idents, done) + [InsertStatement(table, idents, Tuples(batch))]
    decreases |done|
  {
    if done == [] {
      assert done + [batch] == [batch];
    } else {
      assert (done + [batch])[1..] == done[1..] + [batch];
      BatchStatementsSnoc(table, idents, done[1..], batch);
    }
  }

  lemma ReadInsertsStep(t: string, header: string, rows: seq<seq<Cell>>, tail: string, more: seq<seq<seq<Cell>>>)
    requires ReadInsert(t, header) == Some((rows, "\n" + tail))
    requires ReadInserts(tail, header) == Some(more)
    ensures ReadInserts(t, header) == Some([rows] + more)
  {
    assert t != "";
    var rest := "\n" + tail;
    assert rest[0] == '\n' && rest[1..] == tail;
  }

  /** Statements for non-empty batches, one per line group, read back as
      those batches, in order. */
  lemma {:induction false} ReadInsertsOf(table: string, idents: string, batches: seq<seq<seq<Cell>>>)
    requires forall k :: 0 <= k < |batches| ==> batches[k] != []
    ensures ReadInserts(Join(BatchStatements(table, idents, batches), "\n"), InsertHeader(table, idents))
      == Some(batches)
    decreases |batches|
  {
    var header := InsertHeader(table, idents);
    var statements := BatchStatements(table, idents, batches);
    if |batches| == 1 {
      JoinSingle(statements, "\n");
      InsertStatementRoundTrip(table, idents, batches[0], "");
      assert statements[0] + "" == statements[0];
      assert [batches[0]] == batches;
    } else if |batches| > 1 {
      var more := Join(BatchStatements(table, idents, batches[1..]), "\n");
      JoinCons(statements, "\n");
      ReadInsertsOf(table, idents, batches[1..]);
      InsertStatementRoundTrip(table, idents, batches[0], "\n" + more);
      ReadInsertsStep(statements[0] + ("\n" + more), header, batches[0], more, batches[1..]);
      assert [batches[0]] + batches[1..] == batches;
    }
  }

  /** The batch size the loop actually keeps to: the test `len(batch) >=
      batch_size` after every append flushes after every row when
      `batch_size` is below 1. */
  function EffectiveBatchSize(batchSize: int): (b: nat)
    ensures b >= 1
    ensures batchSize >= 1 ==> b == batchSize
  {
    if batchSize < 1 then 1 else batchSize
  }

  /** The insert section for `rows`: one statement per batch of rows,
      statements separated by a line break. */
  function InsertScript(table: string, names: seq<string>, rows: seq<seq<Cell>>, batchSize: int): string
  {
    Join(BatchStatements(table, ColumnIdents(names), Chunks(rows, EffectiveBatchSize(batchSize))), "\n")
  }

  /** The insert section holds one statement per chunk of the rows (whose
      number, positions, sizes and order the chunking lemmas give); reading
      it back gives exactly those chunks, in order. */
  lemma InsertBatches(table: string, names: seq<string>, rows: seq<seq<Cell>>, batchSize: int)
    ensures ReadInserts(InsertScript(table, names, rows, batchSize), InsertHeader(table, ColumnIdents(names)))
      == Some(Chunks(rows, EffectiveBatchSize(batchSize)))
  {
    var b := EffectiveBatchSize(batchSize);
    ChunksSizes(rows, b);
    ReadInsertsOf(table, ColumnIdents(names), Chunks(rows, b));
  }

  /** Statement k of the insert section, read back, carries the rows from
      position k * B up to (k + 1) * B, or up to the last row. */
  lemma InsertStatementRows(table: string, names: seq<string>, rows: seq<seq<Cell>>, batchSize: int, k: nat)
    requires k < (|rows| + EffectiveBatchSize(batchSize) - 1) / EffectiveBatchSize(batchSize)
    ensures var b := EffectiveBatchSize(batchSize);
      var read := ReadInserts(InsertScript(table, names, rows, batchSize), InsertHeader(table, ColumnIdents(names)));
      && read.Some? && k < |read.value|
      && 0 <= k * b < |rows| && read.value[k] == rows[k * b .. Min(k * b + b, |rows|)]
  {
    var b := EffectiveBatchSize(batchSize);
    var batches := Chunks(rows, b);
    assert k < |batches| by {
      ChunksCount(rows, b);
    }
    assert k * b < |rows| && batches[k] == rows[k * b .. Min(k * b + b, |rows|)] by {
      ChunkAt(rows, b, k);
      assert (k + 1) * b == k * b + b;
    }
    InsertBatches(table, names, rows, batchSize);
  }

  /** No rows give the empty text. */
  lemma NoRowsNoInserts(table: string, names: seq<string>, batchSize: int)
    ensures InsertScript(table, names, [], batchSize) == ""
  {
  }

  /** `build_inserts`: appends each row's tuple to the pending batch, emits
      a statement whenever the batch reaches `batch_size`, and emits what is
      left after the last row. */
  method BuildInserts(f: Frame, table: string, batchSize: int) returns (sql: string)
    ensures sql == InsertScript(table, Names(f), f.rows, batchSize)
  {
    var colIdents := ColumnIdents(Names(f));
    var statements: seq<string> := [];
    var batch: seq<string> := [];
    ghost var b := EffectiveBatchSize(batchSize);
    ghost var whole := Chunks(f.rows, b);
    ghost var done: seq<seq<seq<Cell>>> := [];
    ghost var pending: seq<seq<Cell>> := [];
    assert pending + f.rows[0..] == f.rows;
    assert done + whole == whole;
    for i := 0 to |f.rows|
      invariant |pending| < b
      invariant batch == Tuples(pending)
      invariant statements == BatchStatements(table, colIdents, done)
      invariant done + Chunks(pending + f.rows[i..], b) == whole
    {
      var row := f.rows[i];
      var values := RenderedValues(row);
      PendingStep(done, pending, f.rows, i, b, whole);
      TuplesSnoc(pending, row);
      batch := batch + ["(" + Join(values, ", ") + ")"];
      pending := pending + [row];
      if |batch| >= batchSize {
        FlushStep(done, pending, f.rows[i + 1..], b, whole);
        BatchStatementsSnoc(table, colIdents, done, pending);
        statements := statements + [InsertStatement(table, colIdents, batch)];
        done := done + [pending];
        batch := [];
        pending := [];
      }
    }
    FinalStep(done, pending, f.rows, b, whole);
    if |batch| > 0 {
      BatchStatementsSnoc(table, colIdents, done, pending);
      statements := statements + [InsertStatement(table, colIdents, batch)];
      done := done + [pending];
    }
    sql := Join(statements, "\n");
  }

  lemma TuplesSnoc(rows: seq<seq<Cell>>, row: seq<Cell>)
    ensures Tuples(rows + [row]) == Tuples(rows) + [Tuple(row)]
  {
    var l, r := Tuples(rows + [row]), Tuples(rows) + [Tuple(row)];
    assert |l| == |r|;
    forall i | 0 <= i < |l|
      ensures l[i] == r[i]
    {
      if i < |rows| {
        assert (rows + [row])[i] == rows[i];
      }
    }
  }
}
