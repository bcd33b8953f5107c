/** String literals by their pieces, as section 7 of RFC 8259 has them, and the UTF-16 code units they stand for. */
module StringGrammar {
  import opened Wrappers
  import opened JsonLexer
  import opened Slices
  import DupKey
  import Text

  /** A character as it is, a backslash and a letter or mark, or a backslash, a u and four hexadecimal digits. */
  datatype Piece = Plain(c: char) | Short(c: char) | Unicode(digits: string, values: seq<int>)

  /** A hexadecimal digit and what it counts, in either case. */
  predicate IsHex(c: char, v: int) { 0 <= v < 16 && ("0123456789abcdef"[v] == c || "0123456789ABCDEF"[v] == c) }

  predicate Proper(p: Piece) {
    match p
    case Plain(c) => c != '"' && c != '\\' && c as int >= 0x20
    case Short(c) => c in {'"', '\\', '/', 'b', 'f', 'n', 'r', 't'}
    case Unicode(d, v) => |d| == |v| == 4 && IsHex(d[0], v[0]) && IsHex(d[1], v[1]) && IsHex(d[2], v[2]) && IsHex(d[3], v[3])
  }

  function Spelling(p: Piece): string {
    match p
    case Plain(c) => [c]
    case Short(c) => ['\\', c]
    case Unicode(d, _) => "\\u" + d
  }

  /** A character past U+FFFF stands for a surrogate pair. */
  function Count(p: Piece): nat { if p.Plain? && p.c as int > 0xFFFF then 2 else 1 }

  predicate Means(p: Piece, units: seq<int>)
    requires Proper(p) && |units| == Count(p)
  {
    match p
    case Plain(c) =>
      if c as int <= 0xFFFF then units[0] == c as int
      else 0xD800 <= units[0] <= 0xDBFF && 0xDC00 <= units[1] <= 0xDFFF
           && c as int == 0x10000 + 1024 * (units[0] - 0xD800) + (units[1] - 0xDC00)
    case Short(c) =>
      units[0] == (if c == 'b' then 8 else if c == 't' then 9 else if c == 'n' then 10 else if c == 'f' then 12 else if c == 'r' then 13
                   else c as int)
    case Unicode(_, v) => units[0] == 4096 * v[0] + 256 * v[1] + 16 * v[2] + v[3]
  }

  predicate AllProper(ps: seq<Piece>) { forall i | 0 <= i < |ps| :: Proper(ps[i]) }

  function Spellings(ps: seq<Piece>): string { if ps == [] then "" else Spelling(ps[0]) + Spellings(ps[1..]) }

  /** The units of the pieces, one after another. */
  predicate Mean(ps: seq<Piece>, units: seq<int>)
    requires AllProper(ps)
  {
    if ps == [] then units == []
    else
      var n := Count(ps[0]);
      |units| >= n && Means(ps[0], units[..n]) && Mean(ps[1..], units[n..])
  }

  // ----- one piece

  lemma HexExactly(c: char, v: int)
    ensures HexValue(c) == Some(v) <==> IsHex(c, v)
  {
    if 0 <= v < 16 {
      assert "0123456789abcdef"[v] == (if v < 10 then '0' + v as char else 'a' + (v - 10) as char) by { LowerDigits(v); }
      assert "0123456789ABCDEF"[v] == (if v < 10 then '0' + v as char else 'A' + (v - 10) as char) by { UpperDigits(v); }
    }
  }

  lemma LowerDigits(v: int)
    requires 0 <= v < 16
    ensures "0123456789abcdef"[v] == if v < 10 then '0' + v as char else 'a' + (v - 10) as char
  {
  }

  lemma UpperDigits(v: int)
    requires 0 <= v < 16
    ensures "0123456789ABCDEF"[v] == if v < 10 then '0' + v as char else 'A' + (v - 10) as char
  {
  }

  lemma PieceRead(s: string, i: nat, p: Piece, units: seq<int>)
    requires Proper(p) && At(s, i, Spelling(p)) && |units| == Count(p) && Means(p, units)
    ensures i < |s| && s[i] != '"' && DupKey.KeyElement(s, i) == Some((units, i + |Spelling(p)|))
  {
    hide HexValue, IsHex;
    var t := Spelling(p);
    AtIndex(s, i, t, 0);
    match p
    case Plain(c) =>
      assert units == if c as int <= 0xFFFF then [units[0]] else [units[0], units[1]];
      assert units == RuneUnits(c as int);
    case Short(c) =>
      AtIndex(s, i, t, 1);
      assert units == [units[0]] && SimpleEscape(c) == Some(units[0]);
    case Unicode(d, v) =>
      AtIndex(s, i, t, 1);
      HexRead(s, i, d, v);
      assert units == [units[0]];
  }

  lemma HexRead(s: string, i: nat, d: string, v: seq<int>)
    requires Proper(Unicode(d, v)) && At(s, i, "\\u" + d)
    ensures Hex4(s, i + 1) == Some(4096 * v[0] + 256 * v[1] + 16 * v[2] + v[3])
  {
    hide HexValue, IsHex;
    var t := "\\u" + d;
    AtIndex(s, i, t, 2);
    AtIndex(s, i, t, 3);
    AtIndex(s, i, t, 4);
    AtIndex(s, i, t, 5);
    HexExactly(d[0], v[0]);
    HexExactly(d[1], v[1]);
    HexExactly(d[2], v[2]);
    HexExactly(d[3], v[3]);
  }

  lemma PieceFound(s: string, i: nat) returns (p: Piece)
    requires i < |s| && s[i] != '"' && DupKey.KeyElement(s, i).Some?
    ensures var (units, e) := DupKey.KeyElement(s, i).value;
            Proper(p) && s[i..e] == Spelling(p) && |units| == Count(p) && Means(p, units)
  {
    hide Hex4, RuneUnits, SimpleEscape, Means;
    if s[i] != '\\' {
      p := Plain(s[i]);
      PlainMeans(s[i]);
      assert s[i..i + 1] == [s[i]];
    } else if s[i + 1] != 'u' {
      p := Short(s[i + 1]);
      ShortMeans(s[i + 1]);
      assert s[i..i + 2] == ['\\', s[i + 1]];
    } else {
      p := HexFound(s, i);
      assert s[i..i + 6] == "\\u" + p.digits;
    }
  }

  lemma PlainMeans(c: char)
    requires c != '"' && c != '\\' && c as int >= 0x20
    ensures |RuneUnits(c as int)| == Count(Plain(c)) && Means(Plain(c), RuneUnits(c as int))
  {
  }

  lemma ShortMeans(c: char)
    requires SimpleEscape(c).Some?
    ensures Proper(Short(c)) && Means(Short(c), [SimpleEscape(c).value])
  {
  }

  lemma HexFound(s: string, i: nat) returns (p: Piece)
    requires Hex4(s, i + 1).Some?
    ensures i + 6 <= |s| && p.Unicode? && p.digits == s[i + 2..i + 6] && Proper(p) && Means(p, [Hex4(s, i + 1).value])
  {
    hide HexValue, IsHex;
    var v := [HexValue(s[i + 2]).value, HexValue(s[i + 3]).value, HexValue(s[i + 4]).value, HexValue(s[i + 5]).value];
    HexExactly(s[i + 2], v[0]);
    HexExactly(s[i + 3], v[1]);
    HexExactly(s[i + 4], v[2]);
    HexExactly(s[i + 5], v[3]);
    p := Unicode(s[i + 2..i + 6], v);
  }

  // ----- the whole literal

  lemma {:induction false} BodyRead(raw: string, i: nat, ps: seq<Piece>, units: seq<int>)
    requires AllProper(ps) && Mean(ps, units) && At(raw, i, Spellings(ps) + "\"") && i + |Spellings(ps)| + 1 == |raw|
    ensures DupKey.KeyBody(raw, i) == Some(units)
    decreases |ps|
  {
    hide At, Proper, Means, Spelling, DupKey.KeyElement;
    if ps == [] {
      AtIndex(raw, i, Spellings(ps) + "\"", 0);
    } else {
      var n, t, rest := Count(ps[0]), Spelling(ps[0]), Spellings(ps[1..]) + "\"";
      assert Spellings(ps) + "\"" == t + rest;
      AtConcat(raw, i, t, rest);
      PieceRead(raw, i, ps[0], units[..n]);
      BodyRead(raw, i + |t|, ps[1..], units[n..]);
      assert units == units[..n] + units[n..];
    }
  }

  lemma {:induction false} BodyFound(raw: string, i: nat) returns (ps: seq<Piece>)
    requires DupKey.KeyBody(raw, i).Some?
    ensures AllProper(ps) && i < |raw| && raw[i..] == Spellings(ps) + "\"" && Mean(ps, DupKey.KeyBody(raw, i).value)
    decreases |raw| - i
  {
    hide Proper, Means, Spelling, DupKey.KeyElement;
    if raw[i] == '"' {
      ps := [];
    } else {
      var p := PieceFound(raw, i);
      var (u, e) := DupKey.KeyElement(raw, i).value;
      var rest := BodyFound(raw, e);
      ps := [p] + rest;
      assert ps[1..] == rest;
      assert raw[i..] == raw[i..e] + raw[e..];
      var v := DupKey.KeyBody(raw, e).value;
      assert (u + v)[..|u|] == u && (u + v)[|u|..] == v;
    }
  }

  /** A literal of the grammar, and the units it stands for. */
  ghost predicate Literal(raw: string, units: seq<int>) {
    exists ps :: AllProper(ps) && raw == "\"" + (Spellings(ps) + "\"") && Mean(ps, units)
  }

  /** JSON.parse of a text gives a string exactly when the text is a literal of the grammar, and then its units. */
  lemma DecodeExactly(raw: string, units: seq<int>)
    ensures DupKey.Decode(raw) == Some(units) <==> Literal(raw, units)
  {
    hide AllProper, Mean, Spellings, DupKey.KeyBody;
    if DupKey.Decode(raw) == Some(units) {
      var ps := BodyFound(raw, 1);
      assert raw == [raw[0]] + raw[1..];
    }
    forall ps | AllProper(ps) && raw == "\"" + (Spellings(ps) + "\"") && Mean(ps, units)
      ensures DupKey.Decode(raw) == Some(units)
    {
      assert raw[1..|raw|] == Spellings(ps) + "\"";
      BodyRead(raw, 1, ps, units);
    }
  }

  // ----- what JSON.stringify writes

  /** The piece it writes for a character: the character itself unless it must be escaped, a short escape where there is one,
      and four lower-case digits otherwise. */
  predicate Written(c: char, p: Piece) {
    && Proper(p) && (p.Plain? ==> p.c == c) && (!p.Plain? ==> Means(p, [c as int]))
    && (p.Plain? <==> c as int >= 0x20 && c != '"' && c != '\\')
    && (p.Short? <==> c as int in {0x08, 0x09, 0x0a, 0x0c, 0x0d, 0x22, 0x5c})
    && (p.Unicode? ==> forall i | 0 <= i < 4 :: '0' <= p.digits[i] <= '9' || 'a' <= p.digits[i] <= 'f')
  }

  lemma EscapedExactly(c: char) returns (p: Piece)
    ensures Written(c, p) && Text.Escaped(c) == Spelling(p)
  {
    var u := c as int;
    if u >= 0x20 && c != '"' && c != '\\' {
      p := Plain(c);
    } else if u in {0x08, 0x09, 0x0a, 0x0c, 0x0d, 0x22, 0x5c} {
      p := Short(if u == 8 then 'b' else if u == 9 then 't' else if u == 10 then 'n' else if u == 12 then 'f' else if u == 13 then 'r' else c);
    } else {
      var d := ['0', '0', Text.HexDigit(u / 16), Text.HexDigit(u % 16)];
      HexDigitIs(u / 16);
      HexDigitIs(u % 16);
      HexDigitIs(0);
      p := Unicode(d, [0, 0, u / 16, u % 16]);
      assert "\\u00" + [Text.HexDigit(u / 16), Text.HexDigit(u % 16)] == "\\u" + d;
    }
  }

  lemma HexDigitIs(v: nat)
    requires v < 16
    ensures var c := Text.HexDigit(v); IsHex(c, v) && ('0' <= c <= '9' || 'a' <= c <= 'f')
  {
    LowerDigits(v);
  }
}
