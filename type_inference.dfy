/** Column type inference of csv_to_mssql_sql.py (`detect_type` with its
    `looks_like_date` / `looks_like_time` heuristics and `SQL_TYPE_MAP`).
    The pandas dtype probes are replaced by the column's dtype as an
    enumeration; the text heuristics run over the column's cells. */
module TypeInference {
  import opened Strings
  import opened Literals

  /** The dtype pandas gave a column, as the probes of `detect_type` see it. */
  datatype ColumnKind =
    | IntegerKind   // is_integer_dtype
    | FloatKind     // is_float_dtype
    | BoolKind      // is_bool_dtype
    | DateTimeKind  // is_datetime64_any_dtype
    | ObjectKind    // is_object_dtype: the only kind the text heuristics see
    | OtherKind     // any other dtype (category, string, timedelta, ...)

  /** The keys of `SQL_TYPE_MAP`. */
  datatype SqlType = BigInt | Float | Bit | DateTime2 | Date | Time | NVarCharMax

  /** `SQL_TYPE_MAP`: the SQL Server keyword for each inferred type. */
  function TypeName(t: SqlType): (r: string)
    ensures r != "" && ',' !in r
    ensures TypeFromName(r) == Some(t)
  {
    match t
    case BigInt => "BIGINT"
    case Float => "FLOAT"
    case Bit => "BIT"
    case DateTime2 => "DATETIME2"
    case Date => "DATE"
    case Time => "TIME"
    case NVarCharMax => "NVARCHAR(MAX)"
  }

  /** Reads a type keyword back. */
  function TypeFromName(s: string): Option<SqlType>
  {
    if s == "BIGINT" then Some(BigInt)
    else if s == "FLOAT" then Some(Float)
    else if s == "BIT" then Some(Bit)
    else if s == "DATETIME2" then Some(DateTime2)
    else if s == "DATE" then Some(Date)
    else if s == "TIME" then Some(Time)
    else if s == "NVARCHAR(MAX)" then Some(NVarCharMax)
    else None
  }

  /** At most this many non-null values are examined by the heuristics. */
  const SampleLimit: nat := 100

  /** `str(val)` of a non-null cell. */
  function CellText(c: Cell): string
    requires !c.Null?
  {
    match c
    case Int(i) => DecimalString(i)
    case Text(s) => s
  }

  /** `series.dropna().astype(str)`: the text of every non-null cell, in order. */
  function NonNullTexts(values: seq<Cell>): (r: seq<string>)
    ensures |r| <= |values|
  {
    if values == [] then []
    else if values[0].Null? then NonNullTexts(values[1..])
    else [CellText(values[0])] + NonNullTexts(values[1..])
  }

  /** `series.dropna().astype(str).head(100)` */
  function Sample(values: seq<Cell>): (r: seq<string>)
    ensures |r| <= SampleLimit
    ensures r <= NonNullTexts(values)
    ensures |r| == SampleLimit || r == NonNullTexts(values)
  {
    var all := NonNullTexts(values);
    if |all| <= SampleLimit then all else all[..SampleLimit]
  }

  predicate HasDigit(s: string)
  {
    exists k :: 0 <= k < |s| && IsDigit(s[k])
  }

  /** `looks_like_date`: a `-` or a `/`, and a digit. */
  predicate LooksLikeDate(s: string)
  {
    ('-' in s || '/' in s) && HasDigit(s)
  }

  /** `looks_like_time`: at least one `:`, and a digit. */
  predicate LooksLikeTime(s: string)
  {
    ':' in s && HasDigit(s)
  }

  /** How many of `xs` satisfy `p` (the sum of `xs.map(p)`). */
  function CountMatching(xs: seq<string>, p: string -> bool): (n: nat)
    ensures n <= |xs|
  {
    if xs == [] then 0 else (if p(xs[0]) then 1 else 0) + CountMatching(xs[1..], p)
  }

  /** `len(sample) and sample.map(p).mean() > 0.9`, in integer arithmetic. */
  predicate MostlyMatch(xs: seq<string>, p: string -> bool)
  {
    |xs| > 0 && 10 * CountMatching(xs, p) > 9 * |xs|
  }

  /** `detect_type`: the dtype probes in their fixed order, then, for an
      object column only, the date and time heuristics over the sample. */
  function DetectType(kind: ColumnKind, values: seq<Cell>): SqlType
  {
    match kind
    case IntegerKind => BigInt
    case FloatKind => Float
    case BoolKind => Bit
    case DateTimeKind => DateTime2
    case ObjectKind =>
      var sample := Sample(values);
      if MostlyMatch(sample, LooksLikeDate) then Date
      else if MostlyMatch(sample, LooksLikeTime) then Time
      else NVarCharMax
    case OtherKind => NVarCharMax
  }

  /** The fraction of `xs` satisfying `p`, over the reals, as `mean()` means it. */
  ghost function Mean(xs: seq<string>, p: string -> bool): real
    requires |xs| > 0
  {
    CountMatching(xs, p) as real / |xs| as real
  }

  /** `detect_type` read literally: a non-empty sample and a mean above 0.9. */
  ghost function DetectTypeByMean(kind: ColumnKind, values: seq<Cell>): SqlType
  {
    match kind
    case IntegerKind => BigInt
    case FloatKind => Float
    case BoolKind => Bit
    case DateTimeKind => DateTime2
    case ObjectKind =>
      var sample := Sample(values);
      if |sample| > 0 && Mean(sample, LooksLikeDate) > 0.9 then Date
      else if |sample| > 0 && Mean(sample, LooksLikeTime) > 0.9 then Time
      else NVarCharMax
    case OtherKind => NVarCharMax
  }

  /** A share above 0.9 is exactly `10 * m > 9 * n`. */
  lemma ShareAboveNinetyPercent(m: nat, n: nat)
    requires n > 0
    ensures (m as real / n as real > 0.9) <==> 10 * m > 9 * n
  {
    QuotientAbove(m as real, n as real, 0.9);
  }

  lemma QuotientAbove(a: real, b: real, c: real)
    requires b > 0.0
    ensures a / b > c <==> a > c * b
  {
    var q := a / b;
    assert q * b == a;
    assert (q - c) * b == a - c * b;
    PositiveProduct(q - c, b);
  }

  lemma PositiveProduct(x: real, y: real)
    requires y > 0.0
    ensures x * y > 0.0 <==> x > 0.0
  {
  }

  /** The integer threshold decides exactly as the mean does, on every column. */
  lemma DetectTypeAgreesWithMean(kind: ColumnKind, values: seq<Cell>)
    ensures DetectType(kind, values) == DetectTypeByMean(kind, values)
  {
    var sample := Sample(values);
    if |sample| > 0 {
      ShareAboveNinetyPercent(CountMatching(sample, LooksLikeDate), |sample|);
      ShareAboveNinetyPercent(CountMatching(sample, LooksLikeTime), |sample|);
    }
  }

  /** A column without a non-null value is never DATE or TIME. */
  lemma EmptySampleIsText(kind: ColumnKind, values: seq<Cell>)
    requires NonNullTexts(values) == []
    ensures DetectType(kind, values) != Date && DetectType(kind, values) != Time
    ensures kind == ObjectKind ==> DetectType(kind, values) == NVarCharMax
  {
  }

  lemma {:induction false} NonNullTextsAppend(a: seq<Cell>, b: seq<Cell>)
    ensures NonNullTexts(a + b) == NonNullTexts(a) + NonNullTexts(b)
  {
    if a == [] {
      assert a + b == b;
    } else {
      var ab := a + b;
      assert ab[0] == a[0] && ab[1..] == a[1..] + b;
      NonNullTextsAppend(a[1..], b);
      if a[0].Null? {
        assert NonNullTexts(ab) == NonNullTexts(a[1..] + b);
      } else {
        assert NonNullTexts(ab) == [CellText(a[0])] + NonNullTexts(a[1..] + b);
      }
    }
  }

  /** Null cells do not take part in inference: removing one anywhere leaves
      the inferred type unchanged. */
  lemma DetectTypeIgnoresNulls(kind: ColumnKind, before: seq<Cell>, after: seq<Cell>)
    ensures DetectType(kind, before + [Null] + after) == DetectType(kind, before + after)
  {
    NonNullTextsAppend(before + [Null], after);
    NonNullTextsAppend(before, [Null]);
    NonNullTextsAppend(before, after);
    assert NonNullTexts([Null]) == [];
    assert NonNullTexts(before + [Null]) == NonNullTexts(before);
    assert NonNullTexts(before + [Null] + after) == NonNullTexts(before + after);
  }

  /** Only the first 100 non-null values are examined: once a column has
      that many, appending further cells never changes its type. */
  lemma DetectTypeOnlySeesFirstHundred(kind: ColumnKind, values: seq<Cell>, more: seq<Cell>)
    requires |NonNullTexts(values)| >= SampleLimit
    ensures DetectType(kind, values + more) == DetectType(kind, values)
  {
    NonNullTextsAppend(values, more);
    var all := NonNullTexts(values);
    assert (all + NonNullTexts(more))[..SampleLimit] == all[..SampleLimit];
    assert Sample(values + more) == Sample(values);
  }

  lemma {:induction false} CountAll(xs: seq<string>, p: string -> bool)
    requires forall k :: 0 <= k < |xs| ==> p(xs[k])
    ensures CountMatching(xs, p) == |xs|
  {
    if xs != [] {
      CountAll(xs[1..], p);
    }
  }

  lemma {:induction false} CountNone(xs: seq<string>, p: string -> bool)
    requires forall k :: 0 <= k < |xs| ==> !p(xs[k])
    ensures CountMatching(xs, p) == 0
  {
    if xs != [] {
      CountNone(xs[1..], p);
    }
  }

  lemma {:induction false} CountPositive(xs: seq<string>, p: string -> bool)
    requires CountMatching(xs, p) > 0
    ensures exists k :: 0 <= k < |xs| && p(xs[k])
  {
    if !p(xs[0]) {
      CountPositive(xs[1..], p);
      var k :| 0 <= k < |xs[1..]| && p(xs[1..][k]);
      assert p(xs[k + 1]);
    }
  }

  lemma {:induction false} CountShort(xs: seq<string>, p: string -> bool)
    requires CountMatching(xs, p) < |xs|
    ensures exists k :: 0 <= k < |xs| && !p(xs[k])
  {
    if p(xs[0]) {
      CountShort(xs[1..], p);
      var k :| 0 <= k < |xs[1..]| && !p(xs[1..][k]);
      assert !p(xs[k + 1]);
    }
  }

  /** DATE and TIME are only ever inferred for object columns and need
      evidence in the sample: a DATE column has a sampled value that looks
      like a date; a TIME column has one that looks like a time and, because
      the date test is tried first and failed, one that does not look like a
      date. */
  lemma DetectTypeEvidence(kind: ColumnKind, values: seq<Cell>)
    ensures DetectType(kind, values) == Date ==>
      kind == ObjectKind && exists k :: 0 <= k < |Sample(values)| && LooksLikeDate(Sample(values)[k])
    ensures DetectType(kind, values) == Time ==>
      && kind == ObjectKind
      && (exists k :: 0 <= k < |Sample(values)| && LooksLikeTime(Sample(values)[k]))
      && (exists k :: 0 <= k < |Sample(values)| && !LooksLikeDate(Sample(values)[k]))
  {
    var sample := Sample(values);
    if DetectType(kind, values) == Date {
      CountPositive(sample, LooksLikeDate);
    } else if DetectType(kind, values) == Time {
      CountPositive(sample, LooksLikeTime);
      CountShort(sample, LooksLikeDate);
    }
  }

  /** Both heuristics need a digit, so an object column whose sampled values
      contain no digit at all stays NVARCHAR(MAX). */
  lemma NoDigitIsText(values: seq<Cell>)
    requires forall k :: 0 <= k < |Sample(values)| ==> !HasDigit(Sample(values)[k])
    ensures DetectType(ObjectKind, values) == NVarCharMax
  {
    CountNone(Sample(values), LooksLikeDate);
    CountNone(Sample(values), LooksLikeTime);
  }

  /** An object column whose sampled values all look like dates is DATE. */
  lemma AllDateLikeIsDate(values: seq<Cell>)
    requires Sample(values) != []
    requires forall k :: 0 <= k < |Sample(values)| ==> LooksLikeDate(Sample(values)[k])
    ensures DetectType(ObjectKind, values) == Date
  {
    CountAll(Sample(values), LooksLikeDate);
  }

  /** Names such as `Alice` and `Bob` contain no digit, so an object column
      of them stays NVARCHAR(MAX). */
  lemma NameColumnExample()
    ensures DetectType(ObjectKind, [Text("Alice"), Text("Bob")]) == NVarCharMax
  {
    var names := [Text("Alice"), Text("Bob")];
    assert Sample(names) == ["Alice", "Bob"];
    assert !HasDigit("Alice") && !HasDigit("Bob");
    CountNone(Sample(names), LooksLikeDate);
    CountNone(Sample(names), LooksLikeTime);
  }

  /** ISO dates such as `2024-01-05` make an object column DATE. */
  lemma DateColumnExample()
    ensures DetectType(ObjectKind, [Text("2024-01-05"), Text("2024-02-10")]) == Date
  {
    var dates := [Text("2024-01-05"), Text("2024-02-10")];
    assert Sample(dates) == ["2024-01-05", "2024-02-10"];
    assert "2024-01-05"[0] == '2' && "2024-02-10"[0] == '2';
    assert LooksLikeDate("2024-01-05") && LooksLikeDate("2024-02-10");
    AllDateLikeIsDate(dates);
  }
}
