/** The lexical layer of the strict JSON tokenizer (verifier/token.go). Every function reads the
    line at a cursor and answers with the cursor after one lexeme. Chars stand for bytes. */
module JsonLexer {
  import opened Wrappers
  import opened Text

  // ----- whitespace

  predicate IsWs(c: char) { c == ' ' || c == '\t' || c == '\n' || c == '\r' }

  function WsEnd(s: string, i: nat): (e: nat)
    requires i <= |s|
    ensures i <= e <= |s|
    decreases |s| - i
  {
    if i < |s| && IsWs(s[i]) then WsEnd(s, i + 1) else i
  }

  // ----- strings

  /** Decoded UTF-16 code units and the cursor after what they were decoded from. */
  datatype Units = Units(units: seq<int>, end: nat)

  function HexValue(c: char): Option<int> {
    if '0' <= c <= '9' then Some(c as int - '0' as int)
    else if 'a' <= c <= 'f' then Some(c as int - 'a' as int + 10)
    else if 'A' <= c <= 'F' then Some(c as int - 'A' as int + 10)
    else None
  }

  /** parseHex4 with the cursor on the 'u'. */
  function Hex4(s: string, i: nat): Option<int> {
    if i + 5 > |s| then None
    else
      match (HexValue(s[i + 1]), HexValue(s[i + 2]), HexValue(s[i + 3]), HexValue(s[i + 4]))
      case (Some(a), Some(b), Some(c), Some(d)) => Some(((a * 16 + b) * 16 + c) * 16 + d)
      case _ => None
  }

  predicate Continues(c: char) { 0x80 <= c as int <= 0xBF }

  /** utf8.DecodeRune: a scalar value and its size, or None where Go answers (RuneError, 1). */
  function DecodeRune(s: string, i: nat): (r: Option<(int, nat)>)
    requires i < |s|
    ensures r.Some? ==> 1 <= r.value.1 <= |s| - i
  {
    var a := s[i] as int;
    if a < 0x80 then Some((a, 1))
    else if 0xC2 <= a <= 0xDF && i + 2 <= |s| && Continues(s[i + 1]) then
      Some(((a - 0xC0) * 64 + (s[i + 1] as int - 0x80), 2))
    else if 0xE0 <= a <= 0xEF && i + 3 <= |s| && Continues(s[i + 1]) && Continues(s[i + 2])
            && (a == 0xE0 ==> s[i + 1] as int >= 0xA0) && (a == 0xED ==> s[i + 1] as int <= 0x9F) then
      Some((((a - 0xE0) * 64 + (s[i + 1] as int - 0x80)) * 64 + (s[i + 2] as int - 0x80), 3))
    else if 0xF0 <= a <= 0xF4 && i + 4 <= |s| && Continues(s[i + 1]) && Continues(s[i + 2]) && Continues(s[i + 3])
            && (a == 0xF0 ==> s[i + 1] as int >= 0x90) && (a == 0xF4 ==> s[i + 1] as int <= 0x8F) then
      Some(((((a - 0xF0) * 64 + (s[i + 1] as int - 0x80)) * 64 + (s[i + 2] as int - 0x80)) * 64
            + (s[i + 3] as int - 0x80), 4))
    else None
  }

  /** utf16.AppendRune on a scalar value. */
  function RuneUnits(r: int): seq<int> {
    if r < 0x10000 then [r]
    else [0xD800 + (r - 0x10000) / 0x400, 0xDC00 + (r - 0x10000) % 0x400]
  }

  function SimpleEscape(c: char): Option<int> {
    if c == '"' then Some(0x22)
    else if c == '\\' then Some(0x5C)
    else if c == '/' then Some(0x2F)
    else if c == 'b' then Some(8)
    else if c == 'f' then Some(12)
    else if c == 'n' then Some(10)
    else if c == 'r' then Some(13)
    else if c == 't' then Some(9)
    else None
  }

  /** One element of a string: a raw character or an escape. */
  function Element(s: string, i: nat): (r: Option<Units>)
    requires i < |s|
    ensures r.Some? ==> i < r.value.end <= |s|
  {
    if s[i] == '\\' then
      if i + 1 == |s| then None
      else if s[i + 1] == 'u' then
        match Hex4(s, i + 1)
        case None => None
        case Some(u) => Some(Units([u], i + 6))
      else
        match SimpleEscape(s[i + 1])
        case None => None
        case Some(u) => Some(Units([u], i + 2))
    else if s[i] as int < 0x20 then None
    else
      match DecodeRune(s, i)
      case None => None
      case Some((rune, size)) => Some(Units(RuneUnits(rune), i + size))
  }

  /** What follows an opening quote, closing quote included. */
  function StringBody(s: string, i: nat): (r: Option<Units>)
    requires i <= |s|
    ensures r.Some? ==> i < r.value.end <= |s|
    decreases |s| - i
  {
    if i == |s| then None
    else if s[i] == '"' then Some(Units([], i + 1))
    else
      match Element(s, i)
      case None => None
      case Some(e) =>
        match StringBody(s, e.end)
        case None => None
        case Some(f) => Some(Units(e.units + f.units, f.end))
  }

  /** string(utf16.Decode(units)): an unpaired surrogate becomes U+FFFD. */
  function Runes(units: seq<int>): seq<int> {
    if units == [] then []
    else if 0xD800 <= units[0] < 0xDC00 && |units| > 1 && 0xDC00 <= units[1] < 0xE000 then
      [0x10000 + (units[0] - 0xD800) * 0x400 + (units[1] - 0xDC00)] + Runes(units[2..])
    else if 0xD800 <= units[0] < 0xE000 then [0xFFFD] + Runes(units[1..])
    else [units[0]] + Runes(units[1..])
  }

  // ----- numbers

  function DigitsEnd(s: string, i: nat): (e: nat)
    requires i <= |s|
    ensures i <= e <= |s|
    decreases |s| - i
  {
    if i < |s| && IsDigit(s[i]) then DigitsEnd(s, i + 1) else i
  }

  /** A single 0, or a nonzero digit followed by digits. */
  function IntEnd(s: string, i: nat): (r: Option<nat>)
    requires i <= |s|
    ensures r.Some? ==> i < r.value <= |s|
  {
    if i == |s| then None
    else if s[i] == '0' then Some(i + 1)
    else if '1' <= s[i] <= '9' then Some(DigitsEnd(s, i + 1))
    else None
  }

  function FracEnd(s: string, i: nat): (r: Option<nat>)
    requires i <= |s|
    ensures r.Some? ==> i <= r.value <= |s|
  {
    if i < |s| && s[i] == '.' then
      if i + 1 == |s| || !IsDigit(s[i + 1]) then None else Some(DigitsEnd(s, i + 1))
    else Some(i)
  }

  function ExpEnd(s: string, i: nat): (r: Option<nat>)
    requires i <= |s|
    ensures r.Some? ==> i <= r.value <= |s|
  {
    if i < |s| && (s[i] == 'e' || s[i] == 'E') then
      var k := if i + 1 < |s| && (s[i + 1] == '+' || s[i + 1] == '-') then i + 2 else i + 1;
      if k == |s| || !IsDigit(s[k]) then None else Some(DigitsEnd(s, k))
    else Some(i)
  }

  /** Fraction, then exponent. */
  function TailEnd(s: string, i: nat): (r: Option<nat>)
    requires i <= |s|
    ensures r.Some? ==> i <= r.value <= |s|
  {
    match FracEnd(s, i) case None => None case Some(f) => ExpEnd(s, f)
  }

  function NumberEnd(s: string, i: nat): (r: Option<nat>)
    requires i < |s|
    ensures r.Some? ==> i < r.value <= |s|
  {
    match IntEnd(s, if s[i] == '-' then i + 1 else i) case None => None case Some(n) => TailEnd(s, n)
  }

  // ----- what is in a number

  predicate IsNumber(raw: string) { raw != "" && (raw[0] == '-' || IsDigit(raw[0])) && NumberEnd(raw, 0) == Some(|raw|) }

  lemma {:induction false} DigitsAreDigits(s: string, i: nat, k: nat)
    requires i <= |s| && i <= k < DigitsEnd(s, i)
    ensures IsDigit(s[k])
    decreases |s| - i
  {
    if k > i { DigitsAreDigits(s, i + 1, k); }
  }

  predicate Plain(c: char) { IsDigit(c) || c == '-' || c == '+' || c == '.' || c == 'e' || c == 'E' }

  lemma NumberPlain(raw: string, k: nat)
    requires IsNumber(raw) && k < |raw|
    ensures Plain(raw[k])
  {
    var m := if raw[0] == '-' then 1 else 0;
    var n := IntEnd(raw, m).value;
    if m <= k < n {
      if raw[m] != '0' && k > m { DigitsAreDigits(raw, m + 1, k); }
    } else if k >= n {
      var f := FracEnd(raw, n).value;
      if n < k < f { DigitsAreDigits(raw, n + 1, k); }
      if f <= k {
        var x := if f + 1 < |raw| && (raw[f + 1] == '+' || raw[f + 1] == '-') then f + 2 else f + 1;
        if x <= k { DigitsAreDigits(raw, x, k); }
      }
    }
  }

  // ----- a lexeme depends on its own bytes only

  /** The same `n` bytes at cursor `i` of `s` and at cursor `j` of `t`. */
  predicate Same(s: string, i: nat, t: string, j: nat, n: nat)
    decreases n
  {
    if n == 0 then i <= |s| && j <= |t|
    else i < |s| && j < |t| && s[i] == t[j] && Same(s, i + 1, t, j + 1, n - 1)
  }

  lemma {:induction false} SameTail(s: string, i: nat, t: string, j: nat, n: nat, k: nat)
    requires Same(s, i, t, j, n) && k <= n
    ensures Same(s, i + k, t, j + k, n - k) && i + k <= |s| && j + k <= |t|
    decreases k
  {
    if k > 0 { SameTail(s, i + 1, t, j + 1, n - 1, k - 1); }
  }

  lemma SameChar(s: string, i: nat, t: string, j: nat, n: nat, k: nat)
    requires Same(s, i, t, j, n) && k < n
    ensures i + k < |s| && j + k < |t| && s[i + k] == t[j + k]
  {
    SameTail(s, i, t, j, n, k);
  }

  lemma {:induction false} SameHead(s: string, i: nat, t: string, j: nat, n: nat, k: nat)
    requires Same(s, i, t, j, n) && k <= n
    ensures Same(s, i, t, j, k)
    decreases k
  {
    if k > 0 { SameHead(s, i + 1, t, j + 1, n - 1, k - 1); }
  }

  lemma {:induction false} SameSlice(s: string, i: nat, t: string, j: nat, n: nat)
    requires i + n <= |s| && j + n <= |t| && s[i..i + n] == t[j..j + n]
    ensures Same(s, i, t, j, n)
    decreases n
  {
    if n > 0 {
      assert s[i] == s[i..i + n][0] == t[j..j + n][0] == t[j];
      assert s[i + 1..i + n] == s[i..i + n][1..] == t[j..j + n][1..] == t[j + 1..j + n];
      SameSlice(s, i + 1, t, j + 1, n - 1);
    }
  }

  /** Moving a cursor that was `d` ahead of `i` next to `j`. */
  function Moved(e: Option<Units>, i: nat, j: nat): Option<Units>
    requires e.Some? ==> e.value.end >= i
  {
    match e case None => None case Some(u) => Some(Units(u.units, u.end - i + j))
  }

  lemma ElementLocal(s: string, i: nat, t: string, j: nat)
    requires i < |s| && Element(s, i).Some? && Same(s, i, t, j, Element(s, i).value.end - i)
    ensures Element(t, j) == Moved(Element(s, i), i, j)
  {
    var n := Element(s, i).value.end - i;
    SameChar(s, i, t, j, n, 0);
    if n > 1 { SameChar(s, i, t, j, n, 1); }
    if n > 2 { SameChar(s, i, t, j, n, 2); }
    if n > 3 { SameChar(s, i, t, j, n, 3); }
    if n > 4 { SameChar(s, i, t, j, n, 4); }
    if n > 5 { SameChar(s, i, t, j, n, 5); }
  }

  lemma {:induction false} StringLocal(s: string, i: nat, t: string, j: nat)
    requires i <= |s| && StringBody(s, i).Some? && Same(s, i, t, j, StringBody(s, i).value.end - i)
    ensures StringBody(t, j) == Moved(StringBody(s, i), i, j)
    decreases |s| - i
  {
    hide Element, Same;
    var n := StringBody(s, i).value.end - i;
    SameChar(s, i, t, j, n, 0);
    if s[i] != '"' {
      var k := Element(s, i).value.end - i;
      SameHead(s, i, t, j, n, k);
      ElementLocal(s, i, t, j);
      SameTail(s, i, t, j, n, k);
      StringLocal(s, i + k, t, j + k);
    }
  }

  /** No number runs on past cursor `e`: structural characters end one. */
  predicate Ends(s: string, e: nat) {
    e >= |s| || (!IsDigit(s[e]) && s[e] != '.' && s[e] != 'e' && s[e] != 'E' && s[e] != '+' && s[e] != '-')
  }

  lemma {:induction false} DigitsLocal(s: string, i: nat, t: string, j: nat, n: nat)
    requires i <= |s| && j <= |t| && DigitsEnd(s, i) <= i + n && Same(s, i, t, j, n) && Ends(t, j + n)
    ensures DigitsEnd(t, j) == DigitsEnd(s, i) - i + j
    decreases n
  {
    if n > 0 {
      SameChar(s, i, t, j, n, 0);
      if IsDigit(s[i]) {
        SameTail(s, i, t, j, n, 1);
        DigitsLocal(s, i + 1, t, j + 1, n - 1);
      }
    }
  }

  lemma IntLocal(s: string, i: nat, t: string, j: nat, n: nat)
    requires i <= |s| && j <= |t| && IntEnd(s, i).Some? && IntEnd(s, i).value <= i + n && Same(s, i, t, j, n) && Ends(t, j + n)
    ensures IntEnd(t, j) == Some(IntEnd(s, i).value - i + j)
  {
    SameChar(s, i, t, j, n, 0);
    if s[i] != '0' {
      SameTail(s, i, t, j, n, 1);
      DigitsLocal(s, i + 1, t, j + 1, n - 1);
    }
  }

  lemma FracLocal(s: string, i: nat, t: string, j: nat, n: nat)
    requires i <= |s| && j <= |t| && FracEnd(s, i).Some? && FracEnd(s, i).value <= i + n && Same(s, i, t, j, n) && Ends(t, j + n)
    ensures FracEnd(t, j) == Some(FracEnd(s, i).value - i + j)
  {
    if n > 0 {
      SameChar(s, i, t, j, n, 0);
      if s[i] == '.' {
        SameChar(s, i, t, j, n, 1);
        SameTail(s, i, t, j, n, 1);
        DigitsLocal(s, i + 1, t, j + 1, n - 1);
      }
    }
  }

  lemma ExpLocal(s: string, i: nat, t: string, j: nat, n: nat)
    requires i <= |s| && j <= |t| && ExpEnd(s, i) == Some(i + n) && Same(s, i, t, j, n) && Ends(t, j + n)
    ensures ExpEnd(t, j) == Some(j + n)
  {
    if n > 0 {
      SameChar(s, i, t, j, n, 0);
      SameChar(s, i, t, j, n, 1);
      var k := if s[i + 1] == '+' || s[i + 1] == '-' then 2 else 1;
      SameChar(s, i, t, j, n, k);
      SameTail(s, i, t, j, n, k);
      DigitsLocal(s, i + k, t, j + k, n - k);
    }
  }

  lemma TailLocal(s: string, i: nat, t: string, j: nat, n: nat)
    requires i <= |s| && j <= |t| && TailEnd(s, i) == Some(i + n) && Same(s, i, t, j, n) && Ends(t, j + n)
    ensures TailEnd(t, j) == Some(j + n)
  {
    hide FracEnd, ExpEnd, Same;
    FracLocal(s, i, t, j, n);
    var f := FracEnd(s, i).value - i;
    SameTail(s, i, t, j, n, f);
    ExpLocal(s, i + f, t, j + f, n - f);
  }

  /** A number keeps its extent wherever it stands, as long as something ends it there. */
  lemma NumberLocal(s: string, i: nat, t: string, j: nat, n: nat)
    requires i < |s| && NumberEnd(s, i) == Some(i + n) && Same(s, i, t, j, n) && Ends(t, j + n)
    ensures j < |t| && NumberEnd(t, j) == Some(j + n)
  {
    hide IntEnd, TailEnd, Same;
    SameChar(s, i, t, j, n, 0);
    var m := if s[i] == '-' then 1 else 0;
    SameTail(s, i, t, j, n, m);
    IntLocal(s, i + m, t, j + m, n - m);
    var a := IntEnd(s, i + m).value - i;
    SameTail(s, i, t, j, n, a);
    TailLocal(s, i + a, t, j + a, n - a);
  }
}
