# csv_to_mssql_sql — a verified model

`csv_to_mssql_sql.py` turns a CSV file into a SQL Server script. The script
holds a drop-if-exists / `CREATE TABLE` block followed by batched multi-row
`INSERT` statements. This project models the part that decides what the
script says:

- identifier quoting (`bracket_ident`) and value quoting (`quote_value`);
- column type inference (`detect_type` with `looks_like_date` and
  `looks_like_time`, and `SQL_TYPE_MAP`);
- the two emitters (`build_create_table` and `build_inserts`);
- how `main` puts the sections together.

The loaded DataFrame is a `Frames.Frame`. It has a sequence of columns, each
with a name and a dtype (`ColumnKind`). It has rows of cells, where a cell is
a missing value, an integer or a text (`Literals.Cell`).

Each quoting function comes with a reader that parses the text the way SQL
Server's lexer does. The reader is its inverse partner: a bracketed
identifier reads back as exactly one identifier with the original name. A
rendered value reads back as the same cell, and it stops right after the
value. So a quote inside a text value can never end its literal early.

The emitters are imperative loops, modelled as methods. Each one is proved
equal to a specification function. Lemmas about those functions give the
rest:

- the column list parses back to the schema, one entry per column, in order;
- the insert section has ceil(N / B) statements with the stated batch sizes;
- it reads back statement by statement, and statement k carries rows
  k * B up to (k + 1) * B, each tuple parsing back to its row.

Files and modules:

| file | module | models |
|---|---|---|
| strings.dfy | `Strings` | `str.join`, the doubling escape, its inverse, a delimited-token scanner |
| literals.dfy | `Literals` | `bracket_ident`, `quote_value`, decimal rendering, a value reader |
| type_inference.dfy | `TypeInference` | `SQL_TYPE_MAP`, `detect_type`, `looks_like_date`, `looks_like_time` |
| frames.dfy | `Frames` | the DataFrame: columns, dtypes, rows |
| schema_emitter.dfy | `SchemaEmitter` | `build_create_table` |
| batching.dfy | `Batching` | the cutting of the rows into batches of `batch_size` |
| insert_emitter.dfy | `InsertEmitter` | `build_inserts` |
| script_assembler.dfy | `ScriptAssembler` | the text `main` writes to the output file |

## Model

| member | source | states |
|---|---|---|
| Strings.Join | csv_to_mssql_sql.py:79 | `str.join`: one part is the part itself, and several are the first part, the separator, then the rest joined (Strings.JoinSingle, Strings.JoinCons); every reader below is proved against this shape |
| Strings.Double | csv_to_mssql_sql.py:34 | `replace(q, q+q)` doubles every occurrence: the length grows by the number of occurrences and the result is a well-formed doubled body |
| Strings.UndoubleDouble | csv_to_mssql_sql.py:34 | collapsing doubled delimiters undoes the escape, for every text |
| Strings.DoubleUndouble | csv_to_mssql_sql.py:47 | every well-formed doubled body is the escape of its collapse, so escaping is a bijection onto well-formed bodies |
| Strings.ScanDoubled | csv_to_mssql_sql.py:47-49 | a lexer reading an escaped body up to the first single delimiter returns the original text and exactly the text after the closing delimiter |
| Literals.Digits | csv_to_mssql_sql.py:45 | the decimal digits of a natural number: at least one digit, and a leading `0` only for zero itself |
| Literals.DecimalString | csv_to_mssql_sql.py:45 | `str(int(val))` is a decimal numeral that starts with `-` exactly for negative numbers, has no leading zero, and reads back as the same integer (Literals.DecimalRoundTrip) |
| Literals.DecimalRoundTrip | csv_to_mssql_sql.py:45 | the numeral reads back as the integer it was rendered from, for every integer |
| Literals.BracketIdent | csv_to_mssql_sql.py:32-35 | the identifier starts with `[`, ends with `]`, its inside is well doubled, and un-doubling the inside gives the name back |
| Literals.BracketIdentIsOneIdentifier | csv_to_mssql_sql.py:32-35 | whatever follows (if not `]`), SQL Server reads the bracketed name as one identifier with the original name and stops at its closing bracket |
| Literals.QuoteValue | csv_to_mssql_sql.py:37-49 | the result is `NULL` exactly for missing values; an integer gives a bare decimal that reads back as it; a text gives `N'…'` whose inside un-doubles to the text |
| Literals.ReadQuotedValue | csv_to_mssql_sql.py:37-49 | every rendered value, followed by a comma, a `)` or nothing, reads back as the same cell and stops right after it (no break-out from a text literal) |
| Literals.QuoteValueInjective | csv_to_mssql_sql.py:37-49 | distinct cells render to distinct literals: NULL, numbers and texts never collide |
| TypeInference.TypeName | csv_to_mssql_sql.py:13-21 | each inferred type has a non-empty keyword without a comma, and the keyword reads back as that type |
| TypeInference.NonNullTexts | csv_to_mssql_sql.py:62 | `dropna().astype(str)`: the texts of the non-missing cells, in order; a missing cell anywhere adds nothing (TypeInference.DetectTypeIgnoresNulls) and concatenated columns give concatenated texts (TypeInference.NonNullTextsAppend) |
| TypeInference.NonNullTextsAppend | csv_to_mssql_sql.py:62 | the non-null texts of two pieces of a column, concatenated, are those of the whole column |
| TypeInference.Sample | csv_to_mssql_sql.py:62 | the sample is a prefix of the non-null values' texts, at most 100 long, and all of them when there are at most 100 |
| TypeInference.LooksLikeDate | csv_to_mssql_sql.py:63-65 | a `-` or `/` and a digit; a DATE column has a sampled value passing it (TypeInference.DetectTypeEvidence), and one whose whole sample passes it is DATE (TypeInference.AllDateLikeIsDate) |
| TypeInference.LooksLikeTime | csv_to_mssql_sql.py:66-67 | a `:` and a digit; a TIME column has a sampled value passing it (TypeInference.DetectTypeEvidence); without digits neither test passes (TypeInference.NoDigitIsText) |
| TypeInference.MostlyMatch | csv_to_mssql_sql.py:68-71 | `len(sample) and mean() > 0.9` in integers: it agrees with the real-valued mean (TypeInference.DetectTypeAgreesWithMean), is false on an empty sample (TypeInference.EmptySampleIsText), true when all match (TypeInference.AllDateLikeIsDate) and false when none match (TypeInference.NoDigitIsText) |
| TypeInference.DetectType | csv_to_mssql_sql.py:51-72 | the inferred type: equal to the real-mean definition (TypeInference.DetectTypeAgreesWithMean), blind to missing values (TypeInference.DetectTypeIgnoresNulls) and to values after the first 100 (TypeInference.DetectTypeOnlySeesFirstHundred), never DATE/TIME without sampled evidence (TypeInference.DetectTypeEvidence, TypeInference.EmptySampleIsText) |
| TypeInference.DetectTypeAgreesWithMean | csv_to_mssql_sql.py:68-71 | the integer test `10 * matches > 9 * size` on a non-empty sample decides exactly as `mean() > 0.9` over the reals, for every column |
| TypeInference.DetectTypeEvidence | csv_to_mssql_sql.py:51-72 | DATE and TIME come only from object columns; a DATE column has a sampled value that looks like a date; a TIME column has one that looks like a time and one that does not look like a date, since the date test comes first |
| TypeInference.EmptySampleIsText | csv_to_mssql_sql.py:68-72 | a column with no non-null value is never DATE or TIME; an object one is NVARCHAR(MAX) |
| TypeInference.DetectTypeIgnoresNulls | csv_to_mssql_sql.py:62 | inserting a missing value anywhere in a column never changes its inferred type |
| TypeInference.DetectTypeOnlySeesFirstHundred | csv_to_mssql_sql.py:62 | once a column has 100 non-null values, appending more cells never changes its inferred type |
| TypeInference.AllDateLikeIsDate | csv_to_mssql_sql.py:63-69 | an object column whose non-empty sample looks like dates throughout is DATE |
| TypeInference.NoDigitIsText | csv_to_mssql_sql.py:63-72 | an object column whose sampled values contain no digit is NVARCHAR(MAX) |
| TypeInference.NameColumnExample | csv_to_mssql_sql.py:63-72 | an object column of names such as `Alice`, `Bob` stays NVARCHAR(MAX) |
| TypeInference.DateColumnExample | csv_to_mssql_sql.py:63-69 | an object column of values such as `2024-01-05`, `2024-02-10` is DATE |
| SchemaEmitter.Schema | csv_to_mssql_sql.py:76-77 | every column's name with its inferred type, in column order; the emitted block parses back to it (SchemaEmitter.CreateTableListsEveryColumn) |
| SchemaEmitter.ColumnDef | csv_to_mssql_sql.py:78 | `[name] TYPE`: reads back as that one column and stops right after its type (SchemaEmitter.ReadColumnDefOf) |
| SchemaEmitter.ReadColumnDefOf | csv_to_mssql_sql.py:78 | a column definition followed by a comma or nothing reads back as the name and type it was built from |
| SchemaEmitter.ColumnList | csv_to_mssql_sql.py:79 | the definitions joined by `,\n    `; it parses back to the schema (SchemaEmitter.ColumnListRoundTrip) |
| SchemaEmitter.ColumnListRoundTrip | csv_to_mssql_sql.py:76-79 | the joined column definitions parse back to the schema: one `[name] TYPE` entry per column, in column order, none lost or merged |
| SchemaEmitter.CreateTablePrefix | csv_to_mssql_sql.py:80 | the DROP-if-exists and CREATE TABLE opening; the emitted block starts with it and its column list follows it directly (SchemaEmitter.CreateTableListsEveryColumn) |
| SchemaEmitter.BuildCreateTable | csv_to_mssql_sql.py:74-80 | the loop's result is the DROP / CREATE prefix, the joined definitions of every column with its inferred type, and `);` / `GO` |
| SchemaEmitter.CreateTableListsEveryColumn | csv_to_mssql_sql.py:74-80 | the block starts with the prefix and ends with the suffix; the middle parses back to the schema, which has one entry per column holding that column's name and inferred type |
| InsertEmitter.RenderedValues | csv_to_mssql_sql.py:87 | the rendered cells of a row, in column order; joined by `, ` and closed by `)` they read back as the row (InsertEmitter.ReadTupleBodyOf) |
| InsertEmitter.ReadTupleBodyOf | csv_to_mssql_sql.py:87-88 | the values of a non-empty row, then `)`, read back as the row's cells in column order and stop right after the `)` |
| InsertEmitter.Tuple | csv_to_mssql_sql.py:88 | `(v1, v2, …)`: reads back as exactly its row (InsertEmitter.TupleRoundTrip) |
| InsertEmitter.TupleRoundTrip | csv_to_mssql_sql.py:87-88 | each row's tuple, whatever follows it, reads back as the row's cells, in column order, and stops right after its `)` |
| InsertEmitter.ReadTupleListOf | csv_to_mssql_sql.py:90 | the tuples of a non-empty batch joined by `,\n` read back as the batch's rows, in order, none lost or merged |
| InsertEmitter.ColumnIdents | csv_to_mssql_sql.py:83 | the bracketed column names joined by `, `; it reads back as the column names (InsertEmitter.ColumnIdentsRoundTrip) |
| InsertEmitter.ColumnIdentsRoundTrip | csv_to_mssql_sql.py:83 | the column list of every INSERT parses back to the column names, in order |
| InsertEmitter.InsertStatement | csv_to_mssql_sql.py:90 | one statement: header, tuples joined by `,\n`, `;` and `GO`; reads back as its batch (InsertEmitter.InsertStatementRoundTrip) |
| InsertEmitter.InsertStatementRoundTrip | csv_to_mssql_sql.py:90 | the statement of a non-empty batch reads back, after its header, as exactly that batch and stops right after its `GO` |
| InsertEmitter.ReadInsertsOf | csv_to_mssql_sql.py:94 | statements of non-empty batches joined by newlines read back as those batches, in order |
| InsertEmitter.EffectiveBatchSize | csv_to_mssql_sql.py:89 | the batch size the loop keeps to is at least 1, and equals `batch_size` whenever that is at least 1 |
| Batching.Chunks | csv_to_mssql_sql.py:86-93 | the rows cut into consecutive batches of B: their number, positions, sizes and order are given by Batching.ChunksCount, Batching.ChunkAt, Batching.ChunksSizes and Batching.ChunksFlatten |
| Batching.ChunksFlatten | csv_to_mssql_sql.py:86-93 | the batches, concatenated, are the rows in their original order |
| Batching.ChunksSizes | csv_to_mssql_sql.py:89-93 | every batch holds between 1 and B rows, and all but the last hold exactly B |
| Batching.ChunksCount | csv_to_mssql_sql.py:89-93 | there are ceil(N / B) batches |
| Batching.ChunkAt | csv_to_mssql_sql.py:89-93 | batch k holds rows k * B up to (k + 1) * B, the last one up to row N |
| Batching.ChunksPositions | csv_to_mssql_sql.py:89-93 | the same for every batch at once |
| InsertEmitter.InsertScript | csv_to_mssql_sql.py:82-94 | the insert section: one statement per batch, joined by newlines; it reads back as the batches (InsertEmitter.InsertBatches) |
| InsertEmitter.InsertBatches | csv_to_mssql_sql.py:82-94 | reading the insert section back gives exactly the batches of the rows, in order |
| InsertEmitter.InsertStatementRows | csv_to_mssql_sql.py:82-94 | for k below ceil(N / B), statement k, read back, carries rows k * B up to (k + 1) * B, the last one up to row N |
| InsertEmitter.NoRowsNoInserts | csv_to_mssql_sql.py:92-94 | no rows give the empty text: no statement is emitted |
| InsertEmitter.BuildInserts | csv_to_mssql_sql.py:82-94 | the loop's result is one statement per batch of the tuples, in order, joined by newlines, with a final flush of a partial batch |
| ScriptAssembler.ScriptText | csv_to_mssql_sql.py:125-133 | the file's text: header comments, CREATE TABLE block, blank line, then the insert section or the no-rows comment (ScriptAssembler.ScriptSections) |
| ScriptAssembler.RenderScript | csv_to_mssql_sql.py:122-133 | the written text is the two header comments, the CREATE TABLE block, a blank line, then the INSERT section, or the no-rows comment when the table is empty |
| ScriptAssembler.ScriptSections | csv_to_mssql_sql.py:122-133 | the script starts with the header and the CREATE TABLE block; an empty table ends with the no-rows comment; otherwise the rest is the insert section with ceil(N / 1000) statements |

## Left out

- `sniff_delimiter`, `main`'s argument parsing, the existence check, `pd.read_csv` (with its `na_values` list), the output path and the file I/O are not modelled. The model starts from the loaded DataFrame and ends with the script's text.
- `--limit` (`df.head(limit)`) is not modelled; the model takes the DataFrame after it.
- The pandas dtype probes (`is_integer_dtype` and the others) are not computed from the data. Each column carries its dtype as a `ColumnKind`, and the model checks the probes in the source's order.
- Literals.Cell has no floating-point case: `str(val)` of a float and float NaN are not modelled. Every missing value (None, NaN, NaT) is the single `Null` cell.
- Literals.QuoteValue: numpy integer and bool scalars are not distinguished from Python's. An integer cell renders as its decimal. Any other non-missing value is given as its `str()` text.
- Literals.DecimalString: Python's limit on the number of digits `str(int)` will convert is not modelled.
- TypeInference.HasDigit: `str.isdigit` is modelled as the ASCII digits 0–9. Python also accepts other Unicode digit characters.
- TypeInference.MostlyMatch: the threshold is a strict "more than 90%", because the code compares `mean() > 0.9`. A column exactly 90% date-like is therefore not DATE.
- InsertEmitter.EffectiveBatchSize: a `batch_size` below 1 flushes after every row, exactly like 1; the model states this explicitly.
- The table name is inserted verbatim, as the source does. It is not escaped, not even inside `N'…'` in the `OBJECT_ID` test.
- The SQL Server readers (`Strings.ScanDelimited`, `Literals.ReadValue`, `SchemaEmitter.ParseColumnList`, `InsertEmitter.ParseIdentList`, `InsertEmitter.ReadTuple`, `InsertEmitter.ReadInserts`) cover only the tokens the emitters produce. They are not a full T-SQL lexer: no comments, no whitespace other than the emitted one.
