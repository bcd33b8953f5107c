/** Text shared by the audit pipeline: line splitting, decimal numbers and JSON string quoting.
    Text is a `string`; where the source works on bytes, each char stands for one byte. */
module Text {
  import opened Wrappers

  const LF: char := '\n'

  // ----- decimal numbers

  function Digit(d: nat): char
    requires d < 10
  {
    ['0', '1', '2', '3', '4', '5', '6', '7', '8', '9'][d]
  }

  function Decimal(n: nat): string {
    if n < 10 then [Digit(n)] else Decimal(n / 10) + [Digit(n % 10)]
  }

  function Integer(i: int): string {
    if i < 0 then "-" + Decimal(-i) else Decimal(i)
  }

  predicate IsDigit(c: char) { '0' <= c <= '9' }

  predicate AllDigits(s: string) { forall i | 0 <= i < |s| :: IsDigit(s[i]) }

  lemma DecimalDigits(n: nat)
    ensures |Decimal(n)| > 0 && AllDigits(Decimal(n))
  {
  }

  lemma {:induction false} DecimalInjective(m: nat, n: nat)
    ensures Decimal(m) == Decimal(n) ==> m == n
  {
    if Decimal(m) == Decimal(n) {
      var s, t := Decimal(m), Decimal(n);
      assert s[|s| - 1] == Digit(m % 10) && t[|t| - 1] == Digit(n % 10);
      if m < 10 || n < 10 {
        DecimalDigits(m / 10);
        DecimalDigits(n / 10);
      } else {
        assert s[..|s| - 1] == Decimal(m / 10) && t[..|t| - 1] == Decimal(n / 10);
        DecimalInjective(m / 10, n / 10);
      }
    }
  }

  lemma IntegerInjective(i: int, j: int)
    ensures Integer(i) == Integer(j) ==> i == j
  {
    if Integer(i) == Integer(j) {
      var m, n := if i < 0 then -i else i, if j < 0 then -j else j;
      DecimalDigits(m);
      DecimalDigits(n);
      assert i < 0 ==> Integer(i)[0] == '-' && Integer(i)[1..] == Decimal(m);
      assert j < 0 ==> Integer(j)[0] == '-' && Integer(j)[1..] == Decimal(n);
      assert i >= 0 ==> IsDigit(Integer(i)[0]);
      assert j >= 0 ==> IsDigit(Integer(j)[0]);
      DecimalInjective(m, n);
    }
  }

  lemma IntegerNoComma(i: int)
    ensures forall k | 0 <= k < |Integer(i)| :: IsDigit(Integer(i)[k]) || Integer(i)[k] == '-'
  {
    DecimalDigits(if i < 0 then -i else i);
  }

  // ----- concatenation

  lemma SameHead(p: string, r: string, t: string)
    ensures p + r == p + t ==> r == t
  {
    if p + r == p + t {
      assert (p + r)[|p|..] == r && (p + t)[|p|..] == t;
    }
  }

  /** A field that cannot contain its delimiter is recoverable from the text around it. */
  lemma {:induction false} CutAt(x: string, y: string, d: char, r: string, t: string)
    requires d !in x && d !in y
    requires x + [d] + r == y + [d] + t
    ensures x == y && r == t
  {
    var s := x + [d] + r;
    assert s[|x|] == d && s[|y|] == d;
    assert (y + [d] + t)[|x|] == d && (x + [d] + r)[|y|] == d;
    assert s[..|x|] == x && s[..|y|] == y;
    assert s[|x| + 1..] == r && s[|y| + 1..] == t;
  }

  // ----- JSON strings

  function HexDigit(d: nat): char
    requires d < 16
  {
    ['0', '1', '2', '3', '4', '5', '6', '7', '8', '9', 'a', 'b', 'c', 'd', 'e', 'f'][d]
  }

  /** How JSON.stringify writes one character of a string. */
  function Escaped(c: char): string {
    if c == '"' then "\\\""
    else if c == '\\' then "\\\\"
    else if c as int == 8 then "\\b"
    else if c as int == 9 then "\\t"
    else if c as int == 10 then "\\n"
    else if c as int == 12 then "\\f"
    else if c as int == 13 then "\\r"
    else if c as int < 32 then "\\u00" + [HexDigit(c as int / 16), HexDigit(c as int % 16)]
    else [c]
  }

  function Body(s: string): string {
    if s == "" then "" else Escaped(s[0]) + Body(s[1..])
  }

  /** JSON.stringify of a string. */
  function Quote(s: string): string { "\"" + Body(s) + "\"" }

  /** JSON.stringify of a string or null. */
  function QuoteOrNull(s: Option<string>): string {
    match s
    case None => "null"
    case Some(v) => Quote(v)
  }

  lemma HexDigitInjective(a: nat, b: nat)
    requires a < 16 && b < 16 && HexDigit(a) == HexDigit(b)
    ensures a == b
  {
  }

  lemma EscapedPrefixFree(c: char, d: char, r: string, t: string)
    requires Escaped(c) + r == Escaped(d) + t
    ensures c == d && r == t
  {
    var x, y := Escaped(c), Escaped(d);
    var s := x + r;
    assert s[0] == x[0] == y[0];
    if |x| > 1 && |y| > 1 {
      assert s[1] == x[1] == y[1];
      if |x| == 6 && |y| == 6 {
        assert s[4] == x[4] == y[4] && s[5] == x[5] == y[5];
        HexDigitInjective(c as int / 16, d as int / 16);
        HexDigitInjective(c as int % 16, d as int % 16);
        assert c as int == d as int;
      }
    }
    assert c == d;
    SameHead(x, r, t);
  }

  lemma BodyHead(s: string, r: string)
    requires s != ""
    ensures Body(s) + "\"" + r == Escaped(s[0]) + (Body(s[1..]) + "\"" + r)
  {
  }

  lemma BodyOpen(s: string, r: string)
    requires s != ""
    ensures (Body(s) + "\"" + r)[0] != '"'
  {
    assert (Body(s) + "\"" + r)[0] == Escaped(s[0])[0];
  }

  /** A quoted string ends where it says it ends, whatever follows. */
  lemma {:induction false} QuoteSelfDelimiting(s: string, t: string, r: string, u: string)
    requires Body(s) + "\"" + r == Body(t) + "\"" + u
    ensures s == t && r == u
  {
    if s == "" && t == "" {
      assert Body(s) + "\"" + r == "\"" + r && Body(t) + "\"" + u == "\"" + u;
      SameHead("\"", r, u);
    } else if s == "" {
      BodyOpen(t, u);
      assert false;
    } else if t == "" {
      BodyOpen(s, r);
      assert false;
    } else {
      BodyHead(s, r);
      BodyHead(t, u);
      EscapedPrefixFree(s[0], t[0], Body(s[1..]) + "\"" + r, Body(t[1..]) + "\"" + u);
      QuoteSelfDelimiting(s[1..], t[1..], r, u);
    }
  }

  lemma QuotePrefixFree(s: string, t: string, r: string, u: string)
    requires Quote(s) + r == Quote(t) + u
    ensures s == t && r == u
  {
    var sr, tu := Body(s) + "\"" + r, Body(t) + "\"" + u;
    assert Quote(s) + r == "\"" + sr && Quote(t) + u == "\"" + tu;
    SameHead("\"", sr, tu);
    QuoteSelfDelimiting(s, t, r, u);
  }

  lemma QuoteOrNullPrefixFree(s: Option<string>, t: Option<string>, r: string, u: string)
    requires QuoteOrNull(s) + r == QuoteOrNull(t) + u
    ensures s == t && r == u
  {
    assert (QuoteOrNull(s) + r)[0] == QuoteOrNull(s)[0];
    assert (QuoteOrNull(t) + u)[0] == QuoteOrNull(t)[0];
    match (s, t)
    case (None, None) => SameHead("null", r, u);
    case (Some(a), Some(b)) => QuotePrefixFree(a, b, r, u);
    case _ =>
  }

  // ----- lines

  /** String.prototype.split("\n"). */
  function Split(s: string): (r: seq<string>)
    ensures |r| > 0
  {
    if s == "" then [""]
    else
      var r := Split(s[1..]);
      if s[0] == LF then [""] + r else [[s[0]] + r[0]] + r[1..]
  }

  /** The text of complete lines: each line followed by its terminator. */
  function Join(lines: seq<string>): string {
    if lines == [] then "" else lines[0] + [LF] + Join(lines[1..])
  }

  lemma {:induction false} SplitLine(a: string, b: string)
    requires LF !in a
    ensures Split(a + [LF] + b) == [a] + Split(b)
  {
    var s := a + [LF] + b;
    if a == "" {
      assert s[1..] == b;
    } else {
      assert s[1..] == a[1..] + [LF] + b;
      SplitLine(a[1..], b);
      assert [a[0]] + a[1..] == a;
    }
  }

  lemma {:induction false} SplitFragment(a: string)
    requires LF !in a
    ensures Split(a) == [a]
  {
    if a != "" {
      SplitFragment(a[1..]);
      assert [a[0]] + a[1..] == a;
    }
  }

  predicate NoBreaks(lines: seq<string>) { forall k | 0 <= k < |lines| :: LF !in lines[k] }

  /** Splitting complete lines and an unterminated rest gives back exactly those lines and that rest. */
  lemma {:induction false} SplitJoin(lines: seq<string>, rest: string)
    requires NoBreaks(lines) && LF !in rest
    ensures Split(Join(lines) + rest) == lines + [rest]
    decreases |lines|
  {
    if lines == [] {
      assert Join(lines) + rest == rest;
      SplitFragment(rest);
    } else {
      assert Join(lines) + rest == lines[0] + [LF] + (Join(lines[1..]) + rest);
      SplitLine(lines[0], Join(lines[1..]) + rest);
      SplitJoin(lines[1..], rest);
      assert lines + [rest] == [lines[0]] + (lines[1..] + [rest]);
    }
  }

  lemma {:induction false} JoinAppend(a: seq<string>, b: seq<string>)
    ensures Join(a + b) == Join(a) + Join(b)
    decreases |a|
  {
    if a == [] {
      assert a + b == b;
    } else {
      assert (a + b)[1..] == a[1..] + b;
      JoinAppend(a[1..], b);
    }
  }

  lemma JoinOne(a: string)
    ensures Join([a]) == a + [LF]
  {
    assert Join([a]) == a + [LF] + Join([]);
  }

  /** The characters String.prototype.trim removes. */
  predicate IsSpace(c: char) {
    var u := c as int;
    9 <= u <= 13 || u == 32 || u == 0xA0 || u == 0x1680 || 0x2000 <= u <= 0x200A ||
    u == 0x2028 || u == 0x2029 || u == 0x202F || u == 0x205F || u == 0x3000 || u == 0xFEFF
  }

  predicate Blank(line: string) { forall i | 0 <= i < |line| :: IsSpace(line[i]) }
}
