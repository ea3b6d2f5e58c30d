/** The schema emitter of csv_to_mssql_sql.py (`build_create_table`): one
    `[name] TYPE` entry per column, in column order, inside a
    drop-if-exists / CREATE TABLE block. */
module SchemaEmitter {
  import opened Strings
  import opened Literals
  import opened TypeInference
  import opened Frames

  /** The table schema: every column's name with the type `detect_type`
      infers for it, in column order. */
  function Schema(f: Frame): seq<(string, SqlType)>
    requires Rectangular(f)
  {
    seq(|f.columns|, j requires 0 <= j < |f.columns| =>
      (f.columns[j].name, DetectType(f.columns[j].kind, ColumnValues(f, j))))
  }

  /** `f"{bracket_ident(col)} {sql_type}"` */
  function ColumnDef(column: (string, SqlType)): string
  {
    BracketIdent(column.0) + " " + TypeName(column.1)
  }

  /** The definition of every column, in column order. */
  function ColumnDefs(schema: seq<(string, SqlType)>): (r: seq<string>)
    ensures |r| == |schema|
    ensures forall k :: 0 <= k < |schema| ==> r[k] == ColumnDef(schema[k])
  {
    if schema == [] then [] else [ColumnDef(schema[0])] + ColumnDefs(schema[1..])
  }

  /** What separates two column definitions. */
  const ColumnSeparator: string := ",\n    "

  /** `",\n    ".join(cols_sql)` */
  function ColumnList(schema: seq<(string, SqlType)>): string
  {
    Join(ColumnDefs(schema), ColumnSeparator)
  }

  /** What precedes the column list: drop the table if it exists, then open
      its CREATE TABLE. The table name is used verbatim. */
  function CreateTablePrefix(table: string): string
  {
    "IF OBJECT_ID(N'" + table + "', N'U') IS NOT NULL DROP TABLE " + table
      + ";\nGO\nCREATE TABLE " + table + " (\n    "
  }

  /** What follows the column list. */
  const CreateTableSuffix: string := "\n);\nGO"

  function CreateTableStatement(table: string, columnList: string): string
  {
    CreateTablePrefix(table) + columnList + CreateTableSuffix
  }

  /** How SQL Server reads one column definition: a bracketed identifier, a
      space, and a type keyword running up to the next comma. Yields the
      column and the text after it. */
  function ReadColumnDef(t: string): (r: Option<((string, SqlType), string)>)
    ensures r.Some? ==> |r.value.1| < |t|
  {
    if t == "" || t[0] != '[' then None
    else match ScanDelimited(t[1..], ']')
      case None => None
      case Some((name, afterName)) =>
        if afterName == "" || afterName[0] != ' ' then None
        else
          var (keyword, afterType) := SplitAtFirst(afterName[1..], ',');
          match TypeFromName(keyword)
          case None => None
          case Some(ty) => Some(((name, ty), afterType))
  }

  /** How SQL Server reads a column list back: column definitions separated
      by `ColumnSeparator`. */
  function ParseColumnList(t: string): Option<seq<(string, SqlType)>>
    decreases |t|
  {
    if t == "" then Some([])
    else match ReadColumnDef(t)
      case None => None
      case Some((column, rest)) =>
        if rest == "" then Some([column])
        else if |rest| <= |ColumnSeparator| || rest[..|ColumnSeparator|] != ColumnSeparator then None
        else match ParseColumnList(rest[|ColumnSeparator|..])
          case None => None
          case Some(more) => Some([column] + more)
  }

  lemma ColumnListStart(schema: seq<(string, SqlType)>)
    requires schema != []
    ensures |ColumnList(schema)| >= 2 && ColumnList(schema)[0] == '['
  {
    var defs := ColumnDefs(schema);
    assert defs[0] == ColumnDef(schema[0]);
    assert ColumnList(schema)[..|defs[0]|] == defs[0];
  }

  lemma ReadColumnDefParts(t: string, name: string, afterName: string, ty: SqlType, afterType: string)
    requires t != "" && t[0] == '['
    requires ScanDelimited(t[1..], ']') == Some((name, afterName))
    requires afterName != "" && afterName[0] == ' '
    requires SplitAtFirst(afterName[1..], ',') == (TypeName(ty), afterType)
    ensures ReadColumnDef(t) == Some(((name, ty), afterType))
  {
  }

  /** Reading one column definition followed by `tail` (empty, or starting
      with a comma) yields that column and stops right before `tail`. */
  lemma ReadColumnDefOf(column: (string, SqlType), tail: string)
    requires tail == "" || tail[0] == ','
    ensures ReadColumnDef(ColumnDef(column) + tail) == Some((column, tail))
  {
    var id := BracketIdent(column.0);
    var afterName := " " + (TypeName(column.1) + tail);
    var t := id + afterName;
    ConcatAssoc(id + " ", TypeName(column.1), tail);
    ConcatAssoc(id, " ", TypeName(column.1) + tail);
    BracketIdentIsOneIdentifier(column.0, afterName);
    TailOfConcat(id, afterName);
    assert afterName[1..] == TypeName(column.1) + tail;
    SplitAtFirstOf(TypeName(column.1), ',', tail);
    ReadColumnDefParts(t, column.0, afterName, column.1, tail);
  }

  lemma ParseLastColumn(column: (string, SqlType))
    ensures ParseColumnList(ColumnDef(column)) == Some([column])
  {
    ReadColumnDefOf(column, "");
    assert ColumnDef(column) + "" == ColumnDef(column);
  }

  lemma ParseAfterFirstColumn(t: string, column: (string, SqlType), more: string, columns: seq<(string, SqlType)>)
    requires ReadColumnDef(t) == Some((column, ColumnSeparator + more))
    requires |more| > 0
    requires ParseColumnList(more) == Some(columns)
    ensures ParseColumnList(t) == Some([column] + columns)
  {
    var tail := ColumnSeparator + more;
    assert |tail| > |ColumnSeparator|;
    assert tail[..|ColumnSeparator|] == ColumnSeparator;
    assert tail[|ColumnSeparator|..] == more;
  }

  lemma ParseColumnThenMore(column: (string, SqlType), more: string, columns: seq<(string, SqlType)>)
    requires |more| > 0
    requires ParseColumnList(more) == Some(columns)
    ensures ParseColumnList(ColumnDef(column) + (ColumnSeparator + more)) == Some([column] + columns)
  {
    var tail := ColumnSeparator + more;
    assert tail[0] == ',';
    ReadColumnDefOf(column, tail);
    ParseAfterFirstColumn(ColumnDef(column) + tail, column, more, columns);
  }

  lemma ColumnListSingle(schema: seq<(string, SqlType)>)
    requires |schema| == 1
    ensures ColumnList(schema) == ColumnDef(schema[0])
  {
    assert ColumnDefs(schema) == [ColumnDef(schema[0])];
  }

  lemma ColumnListCons(schema: seq<(string, SqlType)>)
    requires |schema| > 1
    ensures ColumnList(schema) == ColumnDef(schema[0]) + (ColumnSeparator + ColumnList(schema[1..]))
  {
    var defs := ColumnDefs(schema);
    ColumnDefsTail(schema);
    assert Join(defs, ColumnSeparator) == defs[0] + (ColumnSeparator + Join(defs[1..], ColumnSeparator));
  }

  lemma ColumnDefsTail(schema: seq<(string, SqlType)>)
    requires |schema| > 0
    ensures ColumnDefs(schema)[0] == ColumnDef(schema[0])
    ensures ColumnDefs(schema)[1..] == ColumnDefs(schema[1..])
  {
    assert ColumnDefs(schema) == [ColumnDef(schema[0])] + ColumnDefs(schema[1..]);
  }

  /** The column list names every column exactly once, in order, with its
      type: reading it back gives the schema it was made from. */
  lemma {:induction false} ColumnListRoundTrip(schema: seq<(string, SqlType)>)
    ensures ParseColumnList(ColumnList(schema)) == Some(schema)
    decreases |schema|
  {
    if |schema| == 1 {
      ColumnListSingle(schema);
      ParseLastColumn(schema[0]);
      assert [schema[0]] == schema;
    } else if |schema| > 1 {
      ColumnListCons(schema);
      ColumnListRoundTrip(schema[1..]);
      ColumnListStart(schema[1..]);
      ParseColumnThenMore(schema[0], ColumnList(schema[1..]), schema[1..]);
      assert [schema[0]] + schema[1..] == schema;
    }
  }

  /** The definition of column `j` is its bracketed name and inferred type. */
  lemma DefinitionAt(f: Frame, j: nat)
    requires Rectangular(f) && j < |f.columns|
    ensures |ColumnDefs(Schema(f))| == |f.columns|
    ensures ColumnDefs(Schema(f))[j]
      == BracketIdent(f.columns[j].name) + " " + TypeName(DetectType(f.columns[j].kind, ColumnValues(f, j)))
  {
    var schema := Schema(f);
    assert schema[j] == (f.columns[j].name, DetectType(f.columns[j].kind, ColumnValues(f, j)));
  }

  /** `build_create_table`: collects one definition per column, then wraps
      their joined list in the DROP / CREATE block. */
  method BuildCreateTable(f: Frame, table: string) returns (sql: string)
    requires Rectangular(f)
    ensures sql == CreateTableStatement(table, ColumnList(Schema(f)))
  {
    ghost var schema := Schema(f);
    ghost var defs := ColumnDefs(schema);
    var colsSql: seq<string> := [];
    for j := 0 to |f.columns|
      invariant colsSql == defs[..j]
    {
      var sqlType := DetectType(f.columns[j].kind, ColumnValues(f, j));
      DefinitionAt(f, j);
      PrefixSnoc(defs, j);
      colsSql := colsSql + [BracketIdent(f.columns[j].name) + " " + TypeName(sqlType)];
    }
    assert defs[..|f.columns|] == defs;
    var colsJoined := Join(colsSql, ColumnSeparator);
    sql := CreateTableStatement(table, colsJoined);
  }

  /** The emitted block is the DROP / CREATE prefix, then one entry per
      column in column order (each column's own name and inferred type,
      recoverable from the text), then `);` and `GO`. */
  lemma CreateTableListsEveryColumn(f: Frame, table: string)
    requires Rectangular(f)
    ensures var sql := CreateTableStatement(table, ColumnList(Schema(f)));
      var start, end := |CreateTablePrefix(table)|, |sql| - |CreateTableSuffix|;
      && start <= end
      && sql[..start] == CreateTablePrefix(table)
      && sql[end..] == CreateTableSuffix
      && ParseColumnList(sql[start..end]) == Some(Schema(f))
    ensures |Schema(f)| == |f.columns|
    ensures forall j :: 0 <= j < |f.columns| ==>
      Schema(f)[j] == (f.columns[j].name, DetectType(f.columns[j].kind, ColumnValues(f, j)))
  {
    var list := ColumnList(Schema(f));
    var sql := CreateTableStatement(table, list);
    var start, end := |CreateTablePrefix(table)|, |sql| - |CreateTableSuffix|;
    assert sql[start..end] == list;
    ColumnListRoundTrip(Schema(f));
  }
}
