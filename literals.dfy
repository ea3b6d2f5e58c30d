/** The value renderer and identifier quoting of csv_to_mssql_sql.py:
    `bracket_ident` and `quote_value`, with the SQL Server lexer's view of
    their output (a bracketed identifier, the NULL keyword, a bare decimal
    number, an N'...' Unicode literal) as the inverse they are proved against. */
module Literals {
  import opened Strings

  /** A cell of the loaded table. `Null` stands for every value pandas reports
      as missing (None, NaN, NaT, a configured NULL sentinel); `Int` for a
      value the renderer treats as an integer; `Text` for everything else. */
  datatype Cell = Null | Int(i: int) | Text(s: string)

  predicate IsDigit(c: char)
  {
    '0' <= c <= '9'
  }

  predicate AllDigits(s: string)
  {
    forall k :: 0 <= k < |s| ==> IsDigit(s[k])
  }

  function DigitChar(d: nat): (c: char)
    requires d < 10
    ensures IsDigit(c) && c as int - '0' as int == d
  {
    ('0' as int + d) as char
  }

  /** The decimal digits of `n`, most significant first, without leading
      zeros: only zero itself starts with `0`. */
  function Digits(n: nat): (r: string)
    ensures |r| >= 1 && AllDigits(r)
    ensures r[0] == '0' <==> n == 0
    decreases n
  {
    if n < 10 then [DigitChar(n)] else Digits(n / 10) + [DigitChar(n % 10)]
  }

  /** The number a string of decimal digits denotes. */
  function DigitsValue(s: string): nat
    requires AllDigits(s)
    decreases |s|
  {
    if s == [] then 0
    else DigitsValue(s[..|s| - 1]) * 10 + (s[|s| - 1] as int - '0' as int)
  }

  lemma {:induction false} DigitsRoundTrip(n: nat)
    ensures DigitsValue(Digits(n)) == n
    decreases n
  {
    if n >= 10 {
      DigitsRoundTrip(n / 10);
      var s := Digits(n / 10) + [DigitChar(n % 10)];
      assert s[..|s| - 1] == Digits(n / 10);
    }
  }

  /** Text SQL Server reads as an integer literal: digits, optionally after a minus sign. */
  predicate IsDecimal(s: string)
  {
    (|s| >= 1 && AllDigits(s)) || (|s| >= 2 && s[0] == '-' && AllDigits(s[1..]))
  }

  /** `str(i)` for a Python int. */
  function DecimalString(i: int): (r: string)
    ensures IsDecimal(r)
    ensures r[0] == '-' <==> i < 0
    ensures r[0] == '0' ==> r == "0"
    ensures r[0] == '-' ==> r[1] != '0'
  {
    if i < 0 then "-" + Digits(-i) else Digits(i)
  }

  function ParseDecimal(s: string): int
    requires IsDecimal(s)
  {
    if s[0] == '-' then -(DigitsValue(s[1..]) as int) else DigitsValue(s)
  }

  /** Reading back the rendering of an integer gives the integer. */
  lemma DecimalRoundTrip(i: int)
    ensures ParseDecimal(DecimalString(i)) == i
  {
    if i < 0 {
      DigitsRoundTrip(-i);
      assert DecimalString(i)[1..] == Digits(-i);
    } else {
      DigitsRoundTrip(i);
    }
  }

  /** `bracket_ident`: the name inside `[` `]`, with every `]` doubled.
      Stripping the outer brackets and collapsing `]]` gives the name back. */
  function BracketIdent(name: string): (r: string)
    ensures |r| >= 2 && r[0] == '[' && r[|r| - 1] == ']'
    ensures WellDoubled(r[1..|r| - 1], ']')
    ensures Undouble(r[1..|r| - 1], ']') == name
  {
    UndoubleDouble(name, ']');
    var body := Double(name, ']');
    assert ("[" + body + "]")[1..|body| + 1] == body;
    "[" + body + "]"
  }

  /** SQL Server reads a bracketed identifier as exactly one identifier whose
      name is the original one, and stops at the bracket that closes it. */
  lemma BracketIdentIsOneIdentifier(name: string, rest: string)
    requires rest == [] || rest[0] != ']'
    ensures BracketIdent(name)[0] == '['
    ensures ScanDelimited(BracketIdent(name)[1..] + rest, ']') == Some((name, rest))
  {
    var body := Double(name, ']');
    assert BracketIdent(name) == ("[" + body) + "]";
    ConcatAssoc("[", body, "]");
    assert BracketIdent(name)[1..] == body + "]";
    ScanDoubled(name, ']', rest);
  }

  /** `quote_value`: NULL for a missing value, the bare decimal for an integer,
      and an N'...' literal with every `'` doubled for anything else. */
  function QuoteValue(c: Cell): (r: string)
    ensures r == "NULL" <==> c.Null?
    ensures c.Int? ==> IsDecimal(r) && ParseDecimal(r) == c.i
    ensures c.Text? ==> |r| >= 3 && r[..2] == "N'" && r[|r| - 1] == '\''
    ensures c.Text? ==> WellDoubled(r[2..|r| - 1], '\'') && Undouble(r[2..|r| - 1], '\'') == c.s
  {
    match c
    case Null => "NULL"
    case Int(i) =>
      DecimalRoundTrip(i);
      DecimalString(i)
    case Text(s) =>
      UndoubleDouble(s, '\'');
      var body := Double(s, '\'');
      var r := "N'" + body + "'";
      assert r[2..|r| - 1] == body;
      assert r != "NULL" by {
        assert r[1] == '\'';
      }
      r
  }

  /** Splits `t` after its longest run of leading digits. */
  function SplitDigits(t: string): (p: (string, string))
    ensures p.0 + p.1 == t
    ensures AllDigits(p.0)
    ensures p.1 == [] || !IsDigit(p.1[0])
  {
    if t == [] || !IsDigit(t[0]) then ("", t)
    else
      var p := SplitDigits(t[1..]);
      assert [t[0]] + p.0 + p.1 == t;
      ([t[0]] + p.0, p.1)
  }

  lemma {:induction false} SplitDigitsOf(a: string, rest: string)
    requires AllDigits(a)
    requires rest == [] || !IsDigit(rest[0])
    ensures SplitDigits(a + rest) == (a, rest)
  {
    if a == [] {
      assert a + rest == rest;
    } else {
      SplitDigitsOf(a[1..], rest);
      assert (a + rest)[0] == a[0];
      assert (a + rest)[1..] == a[1..] + rest;
      assert [a[0]] + a[1..] == a;
    }
  }

  /** The longest run of digits at the front of `t`, as a number, and the
      text after it; nothing when `t` does not start with a digit. */
  function ReadDigits(t: string): (r: Option<(nat, string)>)
    ensures r.Some? ==> |r.value.1| < |t|
  {
    var (digits, rest) := SplitDigits(t);
    if digits == [] then None else Some((DigitsValue(digits), rest))
  }

  /** An integer literal: an optional minus sign, then digits. */
  function ReadNumber(t: string): (r: Option<(int, string)>)
    ensures r.Some? ==> |r.value.1| < |t|
  {
    if t != [] && t[0] == '-' then
      match ReadDigits(t[1..])
      case None => None
      case Some((n, rest)) => Some((-(n as int), rest))
    else
      match ReadDigits(t)
      case None => None
      case Some((n, rest)) => Some((n as int, rest))
  }

  /** How SQL Server reads the value literal at the front of `t`: the
      keyword NULL, an N'...' literal (a doubled quote is one quote, a single
      quote closes it), or an integer (an optional minus sign and the
      longest run of digits). Yields the value and the text after it. */
  function ReadValue(t: string): (r: Option<(Cell, string)>)
    ensures r.Some? ==> |r.value.1| < |t|
  {
    if |t| >= 4 && t[..4] == "NULL" then Some((Null, t[4..]))
    else if |t| >= 2 && t[..2] == "N'" then
      match ScanDelimited(t[2..], '\'')
      case None => None
      case Some((s, rest)) => Some((Text(s), rest))
    else
      match ReadNumber(t)
      case None => None
      case Some((i, rest)) => Some((Int(i), rest))
  }

  lemma ReadNull(rest: string)
    ensures ReadValue(QuoteValue(Null) + rest) == Some((Null, rest))
  {
    assert ("NULL" + rest)[..4] == "NULL";
    assert ("NULL" + rest)[4..] == rest;
  }

  lemma ReadText(s: string, rest: string)
    requires rest == [] || rest[0] != '\''
    ensures ReadValue(QuoteValue(Text(s)) + rest) == Some((Text(s), rest))
  {
    var body := Double(s, '\'');
    var t := QuoteValue(Text(s)) + rest;
    assert QuoteValue(Text(s)) == ("N'" + body) + "'";
    ConcatAssoc("N'" + body, "'", rest);
    ConcatAssoc("N'", body, "'" + rest);
    ConcatAssoc(body, "'", rest);
    assert t == "N'" + (body + "'" + rest);
    ScanDoubled(s, '\'', rest);
    ReadValueText(t, s, rest);
  }

  /** Text that starts with `N'` is read as a Unicode literal. */
  lemma ReadValueText(t: string, s: string, rest: string)
    requires |t| >= 2 && t[..2] == "N'"
    requires ScanDelimited(t[2..], '\'') == Some((s, rest))
    ensures ReadValue(t) == Some((Text(s), rest))
  {
    assert t[1] == '\'';
  }

  lemma ReadDigitsOf(n: nat, rest: string)
    requires rest == [] || !IsDigit(rest[0])
    ensures ReadDigits(Digits(n) + rest) == Some((n, rest))
  {
    SplitDigitsOf(Digits(n), rest);
    DigitsRoundTrip(n);
  }

  /** A minus sign before a run of digits reads as the negated number. */
  lemma ReadMinus(u: string, n: nat, rest: string)
    requires ReadDigits(u) == Some((n, rest))
    ensures ReadNumber("-" + u) == Some((-(n as int), rest))
  {
    assert ("-" + u)[1..] == u;
  }

  lemma ReadNegative(n: nat, rest: string)
    requires rest == [] || !IsDigit(rest[0])
    ensures ReadNumber(("-" + Digits(n)) + rest) == Some((-(n as int), rest))
  {
    ReadDigitsOf(n, rest);
    ConcatAssoc("-", Digits(n), rest);
    ReadMinus(Digits(n) + rest, n, rest);
  }

  lemma ReadNonNegative(n: nat, rest: string)
    requires rest == [] || !IsDigit(rest[0])
    ensures ReadNumber(Digits(n) + rest) == Some((n as int, rest))
  {
    assert (Digits(n) + rest)[0] == Digits(n)[0];
    ReadDigitsOf(n, rest);
  }

  lemma ReadNumberOf(i: int, rest: string)
    requires rest == [] || !IsDigit(rest[0])
    ensures ReadNumber(DecimalString(i) + rest) == Some((i, rest))
  {
    if i < 0 {
      ReadNegative(-i, rest);
    } else {
      ReadNonNegative(i, rest);
    }
  }

  /** Text that starts like a number is read as one. */
  lemma ReadValueNumber(t: string)
    requires t != [] && (t[0] == '-' || IsDigit(t[0]))
    requires ReadNumber(t).Some?
    ensures ReadValue(t) == Some((Int(ReadNumber(t).value.0), ReadNumber(t).value.1))
  {
    assert t[..1] == [t[0]];
  }

  lemma ReadInt(i: int, rest: string)
    requires rest == [] || !IsDigit(rest[0])
    ensures ReadValue(QuoteValue(Int(i)) + rest) == Some((Int(i), rest))
  {
    var d := DecimalString(i);
    assert QuoteValue(Int(i)) == d;
    assert (d + rest)[0] == d[0];
    ReadNumberOf(i, rest);
    ReadValueNumber(d + rest);
  }

  /** Every rendered value starts with `N`, `-` or a digit. */
  lemma QuoteValueStart(c: Cell)
    ensures QuoteValue(c) != "" && QuoteValue(c)[0] != ')'
  {
  }

  /** SQL Server reads every rendered value back as the cell it came from and
      stops right after it, whatever follows (a separator, a closing
      parenthesis, the end of the text): NULL, numbers and quoted text never
      stand for one another, and no quote inside a text value can end its
      literal early and let the rest run as SQL. */
  lemma ReadQuotedValue(c: Cell, rest: string)
    requires rest == [] || rest[0] == ',' || rest[0] == ')'
    ensures ReadValue(QuoteValue(c) + rest) == Some((c, rest))
  {
    match c
    case Null => ReadNull(rest);
    case Text(s) => ReadText(s, rest);
    case Int(i) => ReadInt(i, rest);
  }

  /** Distinct cells render to distinct literals. */
  lemma QuoteValueInjective(c: Cell, d: Cell)
    requires QuoteValue(c) == QuoteValue(d)
    ensures c == d
  {
    ReadQuotedValue(c, "");
    ReadQuotedValue(d, "");
  }
}
