/** The text that `main` of csv_to_mssql_sql.py writes to the output file:
    two header comments, the CREATE TABLE block, a blank line, then either
    the INSERT statements or a comment that there are no rows. */
module ScriptAssembler {
  import opened Frames
  import opened SchemaEmitter
  import opened InsertEmitter
  import opened Batching

  /** The `batch_size` that `main` leaves at its default. */
  const DefaultBatchSize: int := 1000

  const NoRowsComment: string := "-- No rows to insert.\n"

  function ScriptHeader(sourceName: string): string
  {
    "-- Generated for SQL Server (SSMS)\n" + "-- Source: " + sourceName + "\n\n"
  }

  /** The script's text: the schema first, then the data section. */
  function ScriptText(sourceName: string, f: Frame, table: string): string
    requires Rectangular(f)
  {
    ScriptHeader(sourceName) + CreateTableStatement(table, ColumnList(Schema(f))) + "\n\n"
      + (if |f.rows| == 0 then NoRowsComment else InsertScript(table, Names(f), f.rows, DefaultBatchSize))
  }

  /** Builds both sections and concatenates them as `main` writes them. */
  method RenderScript(sourceName: string, f: Frame, table: string) returns (text: string)
    requires Rectangular(f)
    ensures text == ScriptText(sourceName, f, table)
  {
    var createSql := BuildCreateTable(f, table);
    var insertsSql := BuildInserts(f, table, DefaultBatchSize);
    text := ScriptHeader(sourceName) + createSql + "\n\n";
    if |f.rows| == 0 {
      text := text + NoRowsComment;
    } else {
      text := text + insertsSql;
    }
  }

  /** A table without rows still gets its CREATE TABLE block, and its data
      section is the no-rows comment instead of an empty INSERT. A table with
      rows gets ceil(N / 1000) INSERT statements after the blank line. */
  lemma ScriptSections(sourceName: string, f: Frame, table: string)
    requires Rectangular(f)
    ensures var text := ScriptText(sourceName, f, table);
      var create := ScriptHeader(sourceName) + CreateTableStatement(table, ColumnList(Schema(f))) + "\n\n";
      && text[..|create|] == create
      && (|f.rows| == 0 ==> text[|create|..] == NoRowsComment)
      && (|f.rows| > 0 ==>
            (&& text[|create|..] == InsertScript(table, Names(f), f.rows, DefaultBatchSize)
             && |Chunks(f.rows, 1000)| == (|f.rows| + 999) / 1000))
  {
    ChunksCount(f.rows, 1000);
  }
}
