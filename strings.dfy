/** Text helpers shared by the renderers and the emitters: Python's
    `str.join`, the "double every delimiter" escape that both identifier
    quoting and string literals use, its inverse, and a scanner that reads a
    delimited token the way SQL Server's lexer does (a doubled delimiter is
    one literal delimiter, a single one closes the token). */
module Strings {

  datatype Option<+T> = None | Some(value: T)

  /** `sep.join(parts)` */
  function Join(parts: seq<string>, sep: string): string
    decreases |parts|
  {
    if |parts| == 0 then ""
    else if |parts| == 1 then parts[0]
    else parts[0] + (sep + Join(parts[1..], sep))
  }

  lemma JoinSingle(parts: seq<string>, sep: string)
    requires |parts| == 1
    ensures Join(parts, sep) == parts[0]
  {
  }

  lemma JoinCons(parts: seq<string>, sep: string)
    requires |parts| > 1
    ensures Join(parts, sep) == parts[0] + (sep + Join(parts[1..], sep))
  {
  }

  lemma ConcatAssoc(a: string, b: string, c: string)
    ensures (a + b) + c == a + (b + c)
  {
  }

  /** Dropping the first character of `a + b` drops it from `a`. */
  lemma TailOfConcat(a: string, b: string)
    requires a != []
    ensures (a + b)[0] == a[0] && (a + b)[1..] == a[1..] + b
  {
  }

  lemma PrefixSnoc<T>(s: seq<T>, j: nat)
    requires j < |s|
    ensures s[..j + 1] == s[..j] + [s[j]]
  {
  }

  /** Number of occurrences of `c` in `s` (`s.count(c)`). */
  function Occurrences(s: string, c: char): nat
  {
    if s == [] then 0 else (if s[0] == c then 1 else 0) + Occurrences(s[1..], c)
  }

  /** Every `q` in `b` belongs to an adjacent pair `qq`, reading from the left:
      `b` is a body that a doubling escape can have produced. */
  predicate WellDoubled(b: string, q: char)
    decreases |b|
  {
    if b == [] then true
    else if b[0] != q then WellDoubled(b[1..], q)
    else |b| >= 2 && b[1] == q && WellDoubled(b[2..], q)
  }

  /** `s.replace(q, q + q)`: every occurrence of `q`, not only the first, doubled. */
  function Double(s: string, q: char): (r: string)
    ensures |r| == |s| + Occurrences(s, q)
    ensures WellDoubled(r, q)
  {
    if s == [] then ""
    else
      var rest := Double(s[1..], q);
      if s[0] == q then
        assert ([q, q] + rest)[2..] == rest;
        [q, q] + rest
      else
        assert ([s[0]] + rest)[1..] == rest;
        [s[0]] + rest
  }

  /** Collapses every adjacent pair `qq` to a single `q`, reading from the left. */
  function Undouble(b: string, q: char): string
    decreases |b|
  {
    if b == [] then ""
    else if |b| >= 2 && b[0] == q && b[1] == q then [q] + Undouble(b[2..], q)
    else [b[0]] + Undouble(b[1..], q)
  }

  /** Undoubling an escaped text gives the text back. */
  lemma {:induction false} UndoubleDouble(s: string, q: char)
    ensures Undouble(Double(s, q), q) == s
  {
    if s != [] {
      UndoubleDouble(s[1..], q);
      var rest := Double(s[1..], q);
      if s[0] == q {
        assert Double(s, q) == [q, q] + rest;
        assert ([q, q] + rest)[2..] == rest;
      } else {
        assert Double(s, q) == [s[0]] + rest;
        assert ([s[0]] + rest)[1..] == rest;
      }
    }
  }

  /** Every well-doubled body is the escape of exactly one text: the escape is
      a bijection between texts and well-doubled bodies. */
  lemma {:induction false} DoubleUndouble(b: string, q: char)
    requires WellDoubled(b, q)
    ensures Double(Undouble(b, q), q) == b
  {
    if b != [] {
      if b[0] == q {
        DoubleUndouble(b[2..], q);
        assert Undouble(b, q) == [q] + Undouble(b[2..], q);
        assert (([q] + Undouble(b[2..], q))[1..]) == Undouble(b[2..], q);
        assert b == [q, q] + b[2..];
      } else {
        DoubleUndouble(b[1..], q);
        assert Undouble(b, q) == [b[0]] + Undouble(b[1..], q);
        assert (([b[0]] + Undouble(b[1..], q))[1..]) == Undouble(b[1..], q);
        assert b == [b[0]] + b[1..];
      }
    }
  }

  /** Reads the text that follows an opening delimiter: `qq` stands for one
      `q`, a lone `q` closes the token. Yields the token's value and the
      text after the closing delimiter; `None` when the token is never closed. */
  function ScanDelimited(t: string, q: char): (r: Option<(string, string)>)
    ensures r.Some? ==> |r.value.1| < |t|
    decreases |t|
  {
    if t == [] then None
    else if t[0] != q then
      match ScanDelimited(t[1..], q)
      case None => None
      case Some(vr) => Some(([t[0]] + vr.0, vr.1))
    else if |t| >= 2 && t[1] == q then
      match ScanDelimited(t[2..], q)
      case None => None
      case Some(vr) => Some(([q] + vr.0, vr.1))
    else Some(("", t[1..]))
  }

  /** An escaped text followed by its closing delimiter is read back as
      exactly that text, and the scan stops at that delimiter: whatever
      follows (unless it starts with another `q`) is left untouched, so
      the text cannot end the token early or run past its end. */
  lemma {:induction false} ScanDoubled(s: string, q: char, rest: string)
    requires rest == [] || rest[0] != q
    ensures ScanDelimited(Double(s, q) + [q] + rest, q) == Some((s, rest))
  {
    var t := Double(s, q) + [q] + rest;
    if s == [] {
      assert t == [q] + rest;
      assert t[1..] == rest;
    } else {
      var d := Double(s[1..], q);
      var tail := d + [q] + rest;
      ScanDoubled(s[1..], q, rest);
      var p := if s[0] == q then [q, q] else [s[0]];
      assert Double(s, q) == p + d;
      ConcatAssoc(p, d, [q]);
      ConcatAssoc(p, d + [q], rest);
      assert t == p + tail;
      assert t[0] == s[0];
      assert t[|p|..] == tail;
      if s[0] == q {
        assert t[1] == q;
      }
      assert [s[0]] + s[1..] == s;
    }
  }

  /** Splits `t` before the first `c`: the part without `c` and the rest
      (which is empty or starts with `c`). */
  function SplitAtFirst(t: string, c: char): (p: (string, string))
    ensures p.0 + p.1 == t
    ensures c !in p.0
    ensures p.1 == [] || p.1[0] == c
  {
    if t == [] then ("", "")
    else if t[0] == c then ("", t)
    else
      var p := SplitAtFirst(t[1..], c);
      assert [t[0]] + p.0 + p.1 == t;
      ([t[0]] + p.0, p.1)
  }

  /** The split is unique: a `c`-free prefix followed by text that is empty
      or starts with `c` is split exactly there. */
  lemma {:induction false} SplitAtFirstOf(a: string, c: char, rest: string)
    requires c !in a
    requires rest == [] || rest[0] == c
    ensures SplitAtFirst(a + rest, c) == (a, rest)
  {
    if a != [] {
      SplitAtFirstOf(a[1..], c, rest);
      assert (a + rest)[0] == a[0] != c;
      assert (a + rest)[1..] == a[1..] + rest;
      assert [a[0]] + a[1..] == a;
    } else {
      assert a + rest == rest;
    }
  }
}
