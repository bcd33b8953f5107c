/** Strings as JSON.stringify writes them and as the tokenizer reads them back: UTF-8 bytes out, UTF-16
    units in. */
module Encoding {
  import opened Wrappers
  import opened Text
  import opened JsonLexer
  import opened JsonTokenizer

  function AsByte(i: int): char
    requires 0 <= i < 256
  {
    i as char
  }

  function EncodeChar(c: char): (b: string)
    ensures 1 <= |b| <= 4
  {
    var u := c as int;
    if u < 0x80 then [c]
    else if u < 0x800 then [AsByte(0xC0 + u / 64), AsByte(0x80 + u % 64)]
    else if u < 0x10000 then [AsByte(0xE0 + u / 4096), AsByte(0x80 + u / 64 % 64), AsByte(0x80 + u % 64)]
    else [AsByte(0xF0 + u / 262144), AsByte(0x80 + u / 4096 % 64), AsByte(0x80 + u / 64 % 64), AsByte(0x80 + u % 64)]
  }

  /** The bytes of a text; each char of the result stands for one byte. */
  function Utf8(s: string): string { if s == "" then "" else EncodeChar(s[0]) + Utf8(s[1..]) }

  /** The UTF-16 code units of a text. */
  function Utf16(s: string): seq<int> { if s == "" then [] else RuneUnits(s[0] as int) + Utf16(s[1..]) }

  function Points(s: string): seq<int> { seq(|s|, i requires 0 <= i < |s| => s[i] as int) }

  lemma {:induction false} Utf8Concat(a: string, b: string)
    ensures Utf8(a + b) == Utf8(a) + Utf8(b)
  {
    if a == "" {
      assert a + b == b;
    } else {
      assert (a + b)[1..] == a[1..] + b;
      Utf8Concat(a[1..], b);
    }
  }

  predicate Ascii(s: string) { forall i | 0 <= i < |s| :: s[i] as int < 0x80 }

  lemma {:induction false} Utf8Ascii(s: string)
    requires Ascii(s)
    ensures Utf8(s) == s
  {
    if s != "" { Utf8Ascii(s[1..]); }
  }

  lemma Utf8One(c: char)
    ensures Utf8([c]) == EncodeChar(c)
  {
    assert Utf8([c]) == EncodeChar(c) + Utf8("");
  }

  // ----- one character

  lemma TwoBytes(u: int)
    requires 0x80 <= u < 0x800
    ensures 0xC2 <= 0xC0 + u / 64 <= 0xDF && (u / 64) * 64 + u % 64 == u
  {
  }

  lemma ThreeBytes(u: int)
    requires 0x800 <= u < 0x10000 && !(0xD800 <= u < 0xE000)
    ensures var a, b, c := u / 4096, u / 64 % 64, u % 64;
            && 0 <= a <= 15 && (a * 64 + b) * 64 + c == u
            && (a == 0 ==> b >= 0x20) && (a == 13 ==> b <= 0x1F)
  {
    var a, b, c := u / 4096, u / 64 % 64, u % 64;
    assert u / 64 == a * 64 + b;
  }

  lemma FourBytes(u: int)
    requires 0x10000 <= u < 0x110000
    ensures var a, b, c, d := u / 262144, u / 4096 % 64, u / 64 % 64, u % 64;
            && 0 <= a <= 4 && ((a * 64 + b) * 64 + c) * 64 + d == u
            && (a == 0 ==> b >= 0x10) && (a == 4 ==> b <= 0x0F)
  {
    var a, b, c, d := u / 262144, u / 4096 % 64, u / 64 % 64, u % 64;
    assert u / 4096 == a * 64 + b;
    assert u / 64 == (u / 4096) * 64 + c;
  }

  lemma DecodesShort(c: char, s: string, i: nat)
    requires |EncodeChar(c)| <= 2 && Same(EncodeChar(c), 0, s, i, |EncodeChar(c)|)
    ensures i < |s| && DecodeRune(s, i) == Some((c as int, |EncodeChar(c)|))
    ensures if c as int < 0x80 then s[i] == c else s[i] as int >= 0x80
  {
    hide Same;
    SameChar(EncodeChar(c), 0, s, i, |EncodeChar(c)|, 0);
    if |EncodeChar(c)| == 2 {
      SameChar(EncodeChar(c), 0, s, i, 2, 1);
      TwoBytes(c as int);
    }
  }

  lemma DecodesThree(c: char, s: string, i: nat)
    requires |EncodeChar(c)| == 3 && Same(EncodeChar(c), 0, s, i, 3)
    ensures i < |s| && DecodeRune(s, i) == Some((c as int, 3)) && s[i] as int >= 0x80
  {
    hide Same;
    SameChar(EncodeChar(c), 0, s, i, 3, 0);
    SameChar(EncodeChar(c), 0, s, i, 3, 1);
    SameChar(EncodeChar(c), 0, s, i, 3, 2);
    ThreeBytes(c as int);
  }

  lemma DecodesFour(c: char, s: string, i: nat)
    requires |EncodeChar(c)| == 4 && Same(EncodeChar(c), 0, s, i, 4)
    ensures i < |s| && DecodeRune(s, i) == Some((c as int, 4)) && s[i] as int >= 0x80
  {
    hide Same;
    SameChar(EncodeChar(c), 0, s, i, 4, 0);
    SameChar(EncodeChar(c), 0, s, i, 4, 1);
    SameChar(EncodeChar(c), 0, s, i, 4, 2);
    SameChar(EncodeChar(c), 0, s, i, 4, 3);
    FourBytes(c as int);
  }

  /** The bytes of a character decode to it, wherever they stand. */
  lemma DecodesChar(c: char, s: string, i: nat)
    requires Same(EncodeChar(c), 0, s, i, |EncodeChar(c)|)
    ensures i < |s| && DecodeRune(s, i) == Some((c as int, |EncodeChar(c)|))
    ensures if c as int < 0x80 then s[i] == c else s[i] as int >= 0x80
  {
    hide Same, DecodeRune;
    if |EncodeChar(c)| <= 2 {
      DecodesShort(c, s, i);
    } else if |EncodeChar(c)| == 3 {
      DecodesThree(c, s, i);
    } else {
      DecodesFour(c, s, i);
    }
  }

  // ----- one escaped character

  lemma HexDigitValue(d: nat)
    requires d < 16
    ensures HexValue(HexDigit(d)) == Some(d) && HexDigit(d) as int < 0x80
  {
  }

  lemma EscapedAscii(c: char)
    ensures |Escaped(c)| > 1 ==> Ascii(Escaped(c))
    ensures |Escaped(c)| == 1 ==> Escaped(c) == [c] && c != '"' && c != '\\' && c as int >= 32
  {
    if |Escaped(c)| == 6 {
      HexDigitValue(c as int / 16);
      HexDigitValue(c as int % 16);
    }
  }

  lemma RawElement(s: string, i: nat, u: int, n: nat)
    requires i < |s| && DecodeRune(s, i) == Some((u, n)) && s[i] != '\\' && s[i] as int >= 0x20
    ensures Element(s, i) == Some(Units(RuneUnits(u), i + n))
  {
    hide DecodeRune, RuneUnits, SimpleEscape, Hex4;
  }

  /** The bytes JSON.stringify writes for a character read back as its code units. */
  lemma ReadsEscaped(c: char, s: string, i: nat)
    requires Same(Utf8(Escaped(c)), 0, s, i, |Utf8(Escaped(c))|)
    ensures i < |s| && s[i] != '"' && Element(s, i) == Some(Units(RuneUnits(c as int), i + |Utf8(Escaped(c))|))
  {
    hide Same, Element, Escaped, Utf8, EncodeChar, DecodeRune;
    EscapedAscii(c);
    if |Escaped(c)| == 1 {
      Utf8One(c);
      DecodesChar(c, s, i);
      RawElement(s, i, c as int, |EncodeChar(c)|);
    } else {
      EscapedLonger(c);
      Utf8Ascii(Escaped(c));
      ReadsEscape(c, s, i);
    }
  }

  lemma EscapedLonger(c: char)
    ensures |Escaped(c)| >= 1
  {
  }

  lemma ReadsEscape(c: char, s: string, i: nat)
    requires |Escaped(c)| > 1 && Same(Escaped(c), 0, s, i, |Escaped(c)|)
    ensures i < |s| && s[i] != '"' && Element(s, i) == Some(Units([c as int], i + |Escaped(c)|)) && c as int < 0x10000
  {
    hide Same, Element;
    if |Escaped(c)| == 6 { ReadsHexEscape(c, s, i); } else { ReadsShortEscape(c, s, i); }
  }

  lemma ReadsShortEscape(c: char, s: string, i: nat)
    requires |Escaped(c)| == 2 && Same(Escaped(c), 0, s, i, 2)
    ensures i < |s| && s[i] != '"' && Element(s, i) == Some(Units([c as int], i + 2)) && c as int < 0x10000
  {
    hide Same, Hex4, DecodeRune, RuneUnits;
    var e := Escaped(c);
    SameChar(e, 0, s, i, 2, 0);
    SameChar(e, 0, s, i, 2, 1);
  }

  lemma ReadsHexEscape(c: char, s: string, i: nat)
    requires |Escaped(c)| == 6 && Same(Escaped(c), 0, s, i, 6)
    ensures i < |s| && s[i] != '"' && Element(s, i) == Some(Units([c as int], i + 6)) && c as int < 0x10000
  {
    hide Same, Element, Hex4;
    var e, hi, lo := Escaped(c), c as int / 16, c as int % 16;
    assert e == ['\\', 'u', '0', '0', HexDigit(hi), HexDigit(lo)];
    SameChar(e, 0, s, i, 6, 0);
    SameChar(e, 0, s, i, 6, 1);
    SameChar(e, 0, s, i, 6, 2);
    SameChar(e, 0, s, i, 6, 3);
    SameChar(e, 0, s, i, 6, 4);
    SameChar(e, 0, s, i, 6, 5);
    ReadsHex(c, s, i + 1);
    HexElement(s, i);
  }

  lemma HexElement(s: string, i: nat)
    requires i + 1 < |s| && s[i] == '\\' && s[i + 1] == 'u' && Hex4(s, i + 1).Some?
    ensures Element(s, i) == Some(Units([Hex4(s, i + 1).value], i + 6))
  {
    hide Hex4;
  }

  lemma ReadsHex(c: char, s: string, i: nat)
    requires i + 5 <= |s| && c as int < 32
    requires s[i + 1] == '0' && s[i + 2] == '0' && s[i + 3] == HexDigit(c as int / 16) && s[i + 4] == HexDigit(c as int % 16)
    ensures Hex4(s, i) == Some(c as int)
  {
    hide HexValue, HexDigit;
    HexDigitValue(c as int / 16);
    HexDigitValue(c as int % 16);
    HexDigitValue(0);
    assert HexDigit(0) == '0' by { ZeroDigit(); }
  }

  lemma ZeroDigit()
    ensures HexDigit(0) == '0'
  {
  }

  // ----- whole strings

  lemma SuffixSame(a: string, b: string)
    ensures Same(b, 0, a + b, |a|, |b|)
  {
    assert b[0..|b|] == b && (a + b)[|a|..|a| + |b|] == b;
    JsonLexer.SameSlice(b, 0, a + b, |a|, |b|);
  }

  lemma PrefixSame(a: string, b: string)
    ensures Same(a, 0, a + b, 0, |a|)
  {
    assert a[0..|a|] == a && (a + b)[0..|a|] == a;
    JsonLexer.SameSlice(a, 0, a + b, 0, |a|);
  }

  lemma {:induction false} ReadsBody(s: string)
    ensures StringBody(Utf8(Text.Body(s)) + "\"", 0) == Some(Units(Utf16(s), |Utf8(Text.Body(s))| + 1))
  {
    hide Element, Escaped, EncodeChar, Same, StringBody, RuneUnits;
    var t := Utf8(Text.Body(s)) + "\"";
    if s == "" {
      assert t == "\"";
      QuoteEnds();
    } else {
      var e, rest := Utf8(Escaped(s[0])), Utf8(Text.Body(s[1..])) + "\"";
      Utf8Concat(Escaped(s[0]), Text.Body(s[1..]));
      assert t == e + rest;
      PrefixSame(e, rest);
      SuffixSame(e, rest);
      ReadsEscaped(s[0], t, 0);
      ReadsBody(s[1..]);
      StringLocal(rest, 0, t, |e|);
      BodyStep(t, RuneUnits(s[0] as int), |e|);
    }
  }

  lemma QuoteEnds()
    ensures StringBody("\"", 0) == Some(Units([], 1))
  {
  }

  lemma BodyStep(t: string, u: seq<int>, n: nat)
    requires t != "" && t[0] != '"' && n <= |t| && Element(t, 0) == Some(Units(u, n)) && StringBody(t, n).Some?
    ensures StringBody(t, 0) == Some(Units(u + StringBody(t, n).value.units, StringBody(t, n).value.end))
  {
    hide Element;
  }

  /** A quoted string reads back as the code units of the text that was quoted. */
  lemma ReadsQuoted(s: string)
    ensures ParseString(Utf8(Quote(s)), 0) == Ok(Utf16(s), |Utf8(Quote(s))|)
  {
    hide StringBody, EncodeChar, Same;
    var b := Utf8(Text.Body(s)) + "\"";
    Utf8Concat("\"" + Text.Body(s), "\"");
    Utf8Concat("\"", Text.Body(s));
    Utf8Ascii("\"");
    assert Utf8(Quote(s)) == "\"" + b;
    ReadsBody(s);
    SuffixSame("\"", b);
    StringLocal(b, 0, "\"" + b, 1);
  }

  // ----- code units decode to the characters

  lemma UnitsOfRune(u: int)
    requires 0 <= u < 0xD800 || 0xE000 <= u < 0x110000
    ensures var r := RuneUnits(u);
            if u < 0x10000 then r == [u]
            else |r| == 2 && 0xD800 <= r[0] < 0xDC00 && 0xDC00 <= r[1] < 0xE000
                 && 0x10000 + (r[0] - 0xD800) * 0x400 + (r[1] - 0xDC00) == u
  {
  }

  lemma {:induction false} RunesOfUnits(s: string)
    ensures Runes(Utf16(s)) == Points(s)
  {
    hide RuneUnits;
    if s != "" {
      var u, rest := s[0] as int, Utf16(s[1..]);
      UnitsOfRune(u);
      RunesOfUnits(s[1..]);
      assert Utf16(s) == RuneUnits(u) + rest;
      if u < 0x10000 {
        assert Utf16(s)[1..] == rest;
      } else {
        assert Utf16(s)[2..] == rest;
      }
      assert Points(s) == [u] + Points(s[1..]);
    }
  }

  /** Keys are told apart by their decoded form. */
  lemma KeysDistinct(a: string, b: string)
    ensures Runes(Utf16(a)) == Runes(Utf16(b)) ==> a == b
  {
    RunesOfUnits(a);
    RunesOfUnits(b);
    if Points(a) == Points(b) {
      assert |a| == |Points(a)| == |b|;
      forall i | 0 <= i < |a| ensures a[i] == b[i] {
        assert Points(a)[i] == a[i] as int && Points(b)[i] == b[i] as int;
      }
    }
  }
}
