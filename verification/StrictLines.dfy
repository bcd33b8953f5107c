/** The tokenizer of verifier/token.go accepts nothing but JSON: a line parses exactly when it is the UTF-8 bytes of a
    well-formed text, nested within the cap, in which no object repeats a key. */
module StrictLines {
  import opened Wrappers
  import opened Text
  import opened JsonLexer
  import opened JsonTokenizer
  import opened Encoding
  import opened DupKeyExact
  import opened StringGrammar
  import opened TwoReaders
  import DupKey
  import NumberGrammar

  // ----- characters

  lemma TwoByteRune(s: string, i: nat)
    requires i + 2 <= |s| && 0xC2 <= s[i] as int <= 0xDF && Continues(s[i + 1])
    ensures var r := (s[i] as int - 0xC0) * 64 + (s[i + 1] as int - 0x80);
            0x80 <= r < 0x800 && EncodeChar(r as char) == [s[i], s[i + 1]]
  {
  }

  lemma ThreeByteRune(s: string, i: nat)
    requires i + 3 <= |s| && 0xE0 <= s[i] as int <= 0xEF && Continues(s[i + 1]) && Continues(s[i + 2])
    requires (s[i] as int == 0xE0 ==> s[i + 1] as int >= 0xA0) && (s[i] as int == 0xED ==> s[i + 1] as int <= 0x9F)
    ensures var r := ((s[i] as int - 0xE0) * 64 + (s[i + 1] as int - 0x80)) * 64 + (s[i + 2] as int - 0x80);
            0x800 <= r < 0x10000 && !(0xD800 <= r < 0xE000) && EncodeChar(r as char) == [s[i], s[i + 1], s[i + 2]]
  {
    var a, b, c := s[i] as int - 0xE0, s[i + 1] as int - 0x80, s[i + 2] as int - 0x80;
    var r := (a * 64 + b) * 64 + c;
    assert r / 64 == a * 64 + b && r % 64 == c;
    assert r / 4096 == a && r / 64 % 64 == b;
  }

  lemma FourByteRune(s: string, i: nat)
    requires i + 4 <= |s| && 0xF0 <= s[i] as int <= 0xF4 && Continues(s[i + 1]) && Continues(s[i + 2]) && Continues(s[i + 3])
    requires (s[i] as int == 0xF0 ==> s[i + 1] as int >= 0x90) && (s[i] as int == 0xF4 ==> s[i + 1] as int <= 0x8F)
    ensures var r := (((s[i] as int - 0xF0) * 64 + (s[i + 1] as int - 0x80)) * 64 + (s[i + 2] as int - 0x80)) * 64 + (s[i + 3] as int - 0x80);
            0x10000 <= r < 0x110000 && EncodeChar(r as char) == [s[i], s[i + 1], s[i + 2], s[i + 3]]
  {
    var a, b, c, d := s[i] as int - 0xF0, s[i + 1] as int - 0x80, s[i + 2] as int - 0x80, s[i + 3] as int - 0x80;
    var q := (a * 64 + b) * 64 + c;
    var r := q * 64 + d;
    assert r / 64 == q && r % 64 == d;
    assert q / 64 == a * 64 + b && q % 64 == c;
    assert r / 4096 == q / 64 && r / 262144 == a;
  }

  /** What decodes is the encoding of a character. */
  lemma RuneFound(s: string, i: nat) returns (c: char)
    requires i < |s| && DecodeRune(s, i).Some?
    ensures var (r, n) := DecodeRune(s, i).value; c as int == r && EncodeChar(c) == s[i..i + n]
  {
    hide EncodeChar;
    var (r, n) := DecodeRune(s, i).value;
    if n == 1 {
      c := s[i];
      OneByte(c);
      assert s[i..i + 1] == [c];
    } else if n == 2 {
      TwoByteRune(s, i);
      c := r as char;
      assert s[i..i + 2] == [s[i], s[i + 1]];
    } else if n == 3 {
      ThreeByteRune(s, i);
      c := r as char;
      assert s[i..i + 3] == [s[i], s[i + 1], s[i + 2]];
    } else {
      FourByteRune(s, i);
      c := r as char;
      assert s[i..i + 4] == [s[i], s[i + 1], s[i + 2], s[i + 3]];
    }
  }

  lemma OneByte(c: char)
    requires c as int < 0x80
    ensures EncodeChar(c) == [c]
  {
  }

  // ----- strings

  lemma HexDigitsAscii(s: string, i: nat)
    requires Hex4(s, i + 1).Some?
    ensures i + 6 <= |s| && Ascii(s[i + 2..i + 6])
  {
    hide HexValue;
    HexAscii(s[i + 2]);
    HexAscii(s[i + 3]);
    HexAscii(s[i + 4]);
    HexAscii(s[i + 5]);
  }

  lemma EscapeFound(s: string, i: nat) returns (p: Piece)
    requires i < |s| && s[i] == '\\' && Element(s, i).Some?
    ensures var Units(units, e) := Element(s, i).value;
            Proper(p) && Spelling(p) == s[i..e] && Ascii(s[i..e]) && |units| == Count(p) && Means(p, units)
  {
    hide Hex4;
    if s[i + 1] == 'u' {
      p := HexFound(s, i);
      HexDigitsAscii(s, i);
      assert s[i..i + 6] == "\\u" + s[i + 2..i + 6];
    } else {
      p := Short(s[i + 1]);
      assert s[i..i + 2] == ['\\', s[i + 1]];
    }
  }

  lemma ElementFound(s: string, i: nat) returns (p: Piece)
    requires i < |s| && s[i] != '"' && Element(s, i).Some?
    ensures var Units(units, e) := Element(s, i).value;
            Proper(p) && Utf8(Spelling(p)) == s[i..e] && |units| == Count(p) && Means(p, units)
  {
    hide Hex4, DecodeRune, EncodeChar, Utf8;
    if s[i] == '\\' {
      p := EscapeFound(s, i);
      Utf8Ascii(Spelling(p));
    } else {
      var c := RuneFound(s, i);
      Utf8One(c);
      NotMark(s, i, c);
      p := Plain(c);
    }
  }

  lemma NotMark(s: string, i: nat, c: char)
    requires i < |s| && s[i] != '"' && s[i] != '\\' && s[i] as int >= 0x20
    requires DecodeRune(s, i).Some? && c as int == DecodeRune(s, i).value.0
    ensures c != '"' && c != '\\' && c as int >= 0x20
  {
  }

  lemma {:induction false} BodyFound(s: string, i: nat) returns (ps: seq<Piece>)
    requires i <= |s| && StringBody(s, i).Some?
    ensures var Units(units, e) := StringBody(s, i).value;
            AllProper(ps) && Utf8(Spellings(ps) + "\"") == s[i..e] && Mean(ps, units)
    decreases |s| - i
  {
    hide Element, Proper, Means, Spelling, Utf8;
    if s[i] == '"' {
      ps := [];
      Utf8Ascii("\"");
      assert Spellings(ps) + "\"" == "\"";
      assert s[i..i + 1] == "\"";
    } else {
      var p := ElementFound(s, i);
      var Units(u, k) := Element(s, i).value;
      var rest := BodyFound(s, k);
      ps := [p] + rest;
      assert ps[1..] == rest;
      var Units(v, e) := StringBody(s, k).value;
      Utf8Concat(Spelling(p), Spellings(rest) + "\"");
      assert Spellings(ps) + "\"" == Spelling(p) + (Spellings(rest) + "\"");
      assert s[i..e] == s[i..k] + s[k..e];
      assert (u + v)[..|u|] == u && (u + v)[|u|..] == v;
    }
  }

  lemma StringFound(s: string, i: nat) returns (raw: string)
    requires i <= |s| && ParseString(s, i).Ok?
    ensures var Ok(units, e) := ParseString(s, i); DupKey.Decode(raw) == Some(units) && Utf8(raw) == s[i..e]
  {
    hide StringBody, AllProper, Mean, Spellings, DupKey.Decode, Utf8;
    var ps := BodyFound(s, i + 1);
    var Ok(units, e) := ParseString(s, i);
    var body := Spellings(ps) + "\"";
    raw := "\"" + body;
    Utf8Concat("\"", body);
    Utf8Ascii("\"");
    assert s[i..e] == "\"" + s[i + 1..e];
    assert Literal(raw, units);
    DecodeExactly(raw, units);
  }

  // ----- values

  /** A value was read from these bytes: they are those of a tree with that value, which repeats no key. */
  ghost predicate Read(c: Node, v: Value, b: string, depth: nat) {
    Wf(c) && Fits(c, depth) && !TextRepeats(c) && ValueOf(c) == v && Utf8(Source(c)) == b
  }

  lemma AtomFound(raw: string, v: Value, depth: nat)
    requires IsAtom(raw) && raw != "" && v == Scalar(KindOf(raw), raw, []) && depth <= MAX_PARSE_DEPTH
    ensures Read(Atom(raw), v, raw, depth)
  {
    hide IsAtom, KindOf, Utf8;
    AtomReads(raw);
  }

  lemma NumberKindOf(raw: string)
    requires raw != "" && (raw[0] == '-' || IsDigit(raw[0]))
    ensures KindOf(raw) == NumberKind
  {
  }

  lemma ScalarFound(s: string, i: nat, depth: nat) returns (c: Node)
    requires i < |s| && ParseScalar(s, i).Ok? && depth <= MAX_PARSE_DEPTH
    ensures var Ok(v, e) := ParseScalar(s, i); Read(c, v, s[i..e], depth)
  {
    hide ParseString, NumberEnd, KindOf, Read, NumberGrammar.Proper, NumberGrammar.Spelling, NumberGrammar.Stops;
    var Ok(v, e) := ParseScalar(s, i);
    if s[i] == '"' {
      var raw := StringFound(s, i);
      c := Str(raw);
      StringRead(raw, v, s[i..e], depth);
    } else if s[i] == '-' || IsDigit(s[i]) {
      var n := NumberGrammar.NumberFound(s, i);
      assert NumberGrammar.Spelling(n) == s[i..e];
      NumberKindOf(s[i..e]);
      AtomFound(s[i..e], v, depth);
      c := Atom(s[i..e]);
    } else {
      WordKinds();
      AtomFound(v.raw, v, depth);
      c := Atom(v.raw);
    }
  }

  lemma WordKinds()
    ensures KindOf("true") == BoolKind && KindOf("false") == BoolKind && KindOf("null") == NullKind
  {
  }

  lemma StringRead(raw: string, v: Value, b: string, depth: nat)
    requires DupKey.Decode(raw).Some? && v == Scalar(StringKind, b, DupKey.Decode(raw).value) && Utf8(raw) == b && depth <= MAX_PARSE_DEPTH
    ensures Read(Str(raw), v, b, depth)
  {
    hide DupKey.Decode, Utf8;
  }

  lemma {:induction false} SpacesFound(s: string, i: nat)
    requires i <= |s|
    ensures var w := s[i..WsEnd(s, i)]; Ws(w) && Utf8(w) == w
    decreases |s| - i
  {
    var w := s[i..WsEnd(s, i)];
    if i < |s| && IsWs(s[i]) {
      SpacesFound(s, i + 1);
      var rest := s[i + 1..WsEnd(s, i + 1)];
      assert forall k :: 0 < k < |w| ==> w[k] == rest[k - 1];
    }
    SpacesAscii(w);
  }

  lemma {:induction false} ValueFound(s: string, i: nat, depth: nat) returns (c: Node)
    requires i <= |s| && ParseValue(s, i, depth).Ok?
    ensures var Ok(v, e) := ParseValue(s, i, depth); Read(c, v, s[i..e], depth)
    decreases |s| - i, 2
  {
    hide ParseScalar, ParseItems, ParseMembers, Read;
    if s[i] == '[' {
      c := ListFound(s, i, depth);
    } else if s[i] == '{' {
      c := DictFound(s, i, depth);
    } else {
      c := ScalarFound(s, i, depth);
    }
  }

  lemma EmptyRead(s: string, i: nat, depth: nat)
    requires i < |s| && depth <= MAX_PARSE_DEPTH && WsEnd(s, i + 1) < |s|
    ensures var w := WsEnd(s, i + 1);
            && (s[i] == '[' && s[w] == ']' ==> Read(List(s[i + 1..w], []), Arr([]), s[i..w + 1], depth))
            && (s[i] == '{' && s[w] == '}' ==> Read(Dict(s[i + 1..w], []), Obj([]), s[i..w + 1], depth))
  {
    hide Ws, Utf8, WsEnd, Read;
    var w := WsEnd(s, i + 1);
    SpacesFound(s, i + 1);
    EmptyTrees(s[i + 1..w], depth);
    assert s[i..w + 1] == [s[i]] + (s[i + 1..w] + [s[w]]);
  }

  lemma EmptyTrees(pad: string, depth: nat)
    requires Ws(pad) && Utf8(pad) == pad && depth <= MAX_PARSE_DEPTH
    ensures Read(List(pad, []), Arr([]), "[" + (pad + "]"), depth) && Read(Dict(pad, []), Obj([]), "{" + (pad + "}"), depth)
  {
    hide Ws, Utf8;
    NothingIn(depth);
    var none: set<seq<int>> := {};
    NoMember(depth, none);
    Surrounded('[', pad, ']');
    Surrounded('{', pad, '}');
  }

  lemma NothingIn(depth: nat)
    ensures WfElems([]) && ElemsFit([], depth + 1) && !TextRepeatsInElems([]) && ValuesOf([]) == []
  {
  }

  lemma NoMember(depth: nat, seen: set<seq<int>>)
    ensures WfMems([]) && MemsFit([], depth + 1) && !TextRepeatsInMems([], seen) && MembersOf([]) == []
  {
  }

  lemma Surrounded(a: char, w: string, b: char)
    requires a as int < 0x80 && b as int < 0x80
    ensures Utf8([a] + (w + [b])) == [a] + (Utf8(w) + [b])
  {
    hide Utf8;
    Utf8Concat([a], w + [b]);
    Utf8Concat(w, [b]);
    Utf8Ascii([a]);
    Utf8Ascii([b]);
  }

  lemma {:induction false} ListFound(s: string, i: nat, depth: nat) returns (c: Node)
    requires i < |s| && s[i] == '[' && ParseValue(s, i, depth).Ok?
    ensures var Ok(v, e) := ParseValue(s, i, depth); Read(c, v, s[i..e], depth)
    decreases |s| - i, 1
  {
    hide ParseItems, Read, WsEnd;
    var w := WsEnd(s, i + 1);
    if w < |s| && s[w] == ']' {
      EmptyRead(s, i, depth);
      c := List(s[i + 1..w], []);
    } else {
      SameItems(s, i + 1, depth);
      var elems := ItemsFound(s, i + 1, depth);
      c := List("", elems);
      var Ok(vs, e) := ParseItems(s, i + 1, depth);
      ListRead(elems, vs, s[i + 1..e], depth);
      assert s[i..e] == "[" + s[i + 1..e];
    }
  }

  /** The same for the items of a list, and for members with these keys seen before. */
  ghost predicate ItemsRead(elems: seq<Elem>, vs: seq<Value>, b: string, depth: nat) {
    && elems != [] && WfElems(elems) && ElemsFit(elems, depth + 1) && !TextRepeatsInElems(elems)
    && ValuesOf(elems) == vs && Utf8(ElemsSource(elems)) == b
  }

  ghost predicate MembersRead(members: seq<Mem>, ms: seq<Member>, b: string, depth: nat, seen: set<seq<int>>) {
    && members != [] && WfMems(members) && MemsFit(members, depth + 1) && !TextRepeatsInMems(members, seen)
    && MembersOf(members) == ms && Utf8(MemsSource(members)) == b
  }

  lemma ListRead(elems: seq<Elem>, vs: seq<Value>, b: string, depth: nat)
    requires ItemsRead(elems, vs, b, depth) && depth <= MAX_PARSE_DEPTH
    ensures Read(List("", elems), Arr(vs), "[" + b, depth)
  {
    hide Utf8, ElemsSource, WfElems, ElemsFit, TextRepeatsInElems, ValuesOf;
    Utf8Concat("[", ElemsSource(elems));
    Utf8Ascii("[");
  }

  lemma DictRead(members: seq<Mem>, ms: seq<Member>, b: string, depth: nat)
    requires MembersRead(members, ms, b, depth, {}) && depth <= MAX_PARSE_DEPTH
    ensures Read(Dict("", members), Obj(ms), "{" + b, depth)
  {
    hide Utf8, MemsSource, WfMems, MemsFit, TextRepeatsInMems, MembersOf;
    Utf8Concat("{", MemsSource(members));
    Utf8Ascii("{");
  }

  lemma {:induction false} DictFound(s: string, i: nat, depth: nat) returns (c: Node)
    requires i < |s| && s[i] == '{' && ParseValue(s, i, depth).Ok?
    ensures var Ok(v, e) := ParseValue(s, i, depth); Read(c, v, s[i..e], depth)
    decreases |s| - i, 1
  {
    hide ParseMembers, Read, WsEnd;
    var w := WsEnd(s, i + 1);
    if w < |s| && s[w] == '}' {
      EmptyRead(s, i, depth);
      c := Dict(s[i + 1..w], []);
    } else {
      SameMembers(s, i + 1, depth, {});
      var members := MembersFound(s, i + 1, depth, {});
      c := Dict("", members);
      var Ok(ms, e) := ParseMembers(s, i + 1, depth, {});
      DictRead(members, ms, s[i + 1..e], depth);
      assert s[i..e] == "{" + s[i + 1..e];
    }
  }

  // ----- items

  /** One item: its spaces, its value and the spaces behind it. */
  ghost predicate ItemRead(e: Elem, v: Value, b: string, depth: nat) {
    && WfElem(e) && Fits(e.node, depth + 1) && !TextRepeats(e.node) && ValueOf(e.node) == v
    && Utf8((e.before + Source(e.node)) + e.after) == b
  }

  lemma {:induction false} ItemFound(s: string, i: nat, depth: nat) returns (x: Elem)
    requires i <= |s| && ParseItem(s, i, depth).Ok?
    ensures var Ok(v, p) := ParseItem(s, i, depth); ItemRead(x, v, s[i..p], depth)
    decreases |s| - i, 3
  {
    hide ParseValue, WsEnd, Wf, Fits, TextRepeats, ValueOf, Source, Utf8, Ws;
    var w := WsEnd(s, i);
    var Ok(v, n) := ParseValue(s, w, depth + 1);
    var p := WsEnd(s, n);
    var c := ValueFound(s, w, depth + 1);
    SpacesFound(s, i);
    SpacesFound(s, n);
    x := Elem(s[i..w], c, s[n..p]);
    Utf8Concat(x.before + Source(c), x.after);
    Utf8Concat(x.before, Source(c));
    assert s[i..p] == (s[i..w] + s[w..n]) + s[n..p];
  }

  lemma {:induction false} ItemsFound(s: string, i: nat, depth: nat) returns (elems: seq<Elem>)
    requires i <= |s| && ParseItems(s, i, depth).Ok?
    ensures var Ok(vs, e) := ParseItems(s, i, depth); ItemsRead(elems, vs, s[i..e], depth)
    decreases |s| - i, 4
  {
    hide ParseItem, ItemRead, ItemsRead;
    var x := ItemFound(s, i, depth);
    var Ok(v, p) := ParseItem(s, i, depth);
    if s[p] == ']' {
      elems := [x];
      LastItem(x, v, s[i..p], depth);
      assert s[i..p + 1] == s[i..p] + "]";
    } else {
      var rest := ItemsFound(s, p + 1, depth);
      var Ok(vs, e) := ParseItems(s, p + 1, depth);
      elems := [x] + rest;
      MoreItems(x, v, s[i..p], rest, vs, s[p + 1..e], depth);
      assert s[i..e] == s[i..p] + ("," + s[p + 1..e]);
    }
  }

  lemma LastItem(x: Elem, v: Value, b: string, depth: nat)
    requires ItemRead(x, v, b, depth)
    ensures ItemsRead([x], [v], b + "]", depth)
  {
    hide Utf8, Source, WfElem, Fits, TextRepeats, ValueOf;
    assert [x][1..] == [];
    NothingIn(depth);
    OneElem([x]);
    assert WfElems([x]);
    var t := (x.before + Source(x.node)) + x.after;
    Utf8Concat(t, "]");
    Utf8Ascii("]");
    assert ElemsSource([x]) == t + "]";
    assert ValuesOf([x]) == [v] + ValuesOf([]);
  }

  lemma MoreItems(x: Elem, v: Value, b: string, rest: seq<Elem>, vs: seq<Value>, b2: string, depth: nat)
    requires ItemRead(x, v, b, depth) && ItemsRead(rest, vs, b2, depth)
    ensures ItemsRead([x] + rest, [v] + vs, b + ("," + b2), depth)
  {
    hide Utf8, Source, WfElem, Fits, TextRepeats, ValueOf;
    var all := [x] + rest;
    assert all[1..] == rest;
    assert WfElems(all);
    var t, more := (x.before + Source(x.node)) + x.after, ElemsSource(rest);
    Utf8Concat(t, "," + more);
    Utf8Concat(",", more);
    Utf8Ascii(",");
    assert ElemsSource(all) == t + ("," + more);
  }

  // ----- members

  ghost predicate MemberRead(x: Mem, m: Member, b: string, depth: nat, seen: set<seq<int>>) {
    && WfMem(x) && Fits(x.node, depth + 1) && Runes(KeyOf(x)) !in seen && !TextRepeats(x.node)
    && m == Member(Utf8(x.key), KeyOf(x), ValueOf(x.node)) && Utf8(MemText(x)) == b
  }

  function MemText(x: Mem): string { x.before + (x.key + (x.colon + (":" + ((x.space + Source(x.node)) + x.after)))) }

  lemma MemBytes(x: Mem, a: string, k: string, c: string, sp: string, n: string, z: string)
    requires Utf8(x.before) == a && Utf8(x.key) == k && Utf8(x.colon) == c && Utf8(x.space) == sp && Utf8(Source(x.node)) == n
             && Utf8(x.after) == z
    ensures Utf8(MemText(x)) == a + (k + (c + (":" + ((sp + n) + z))))
  {
    hide Utf8, Source;
    var t1 := x.space + Source(x.node);
    var t2 := t1 + x.after;
    var t3 := ":" + t2;
    var t4 := x.colon + t3;
    Utf8Concat(x.space, Source(x.node));
    Utf8Concat(t1, x.after);
    Utf8Concat(":", t2);
    Utf8Ascii(":");
    Utf8Concat(x.colon, t3);
    Utf8Concat(x.key, t4);
    Utf8Concat(x.before, x.key + t4);
  }

  lemma KeyBytes(s: string, i: nat, w: nat, q: nat, c: nat, k: nat, n: nat, p: nat)
    requires i <= w <= q <= c < k <= n <= p <= |s| && s[c] == ':'
    ensures s[i..p] == s[i..w] + (s[w..q] + (s[q..c] + (":" + ((s[c + 1..k] + s[k..n]) + s[n..p]))))
  {
    assert s[c..p] == ":" + s[c + 1..p];
    assert s[c + 1..p] == (s[c + 1..k] + s[k..n]) + s[n..p];
    assert s[q..p] == s[q..c] + s[c..p];
    assert s[w..p] == s[w..q] + s[q..p];
  }

  lemma {:induction false} MemberFound(s: string, i: nat, depth: nat, seen: set<seq<int>>) returns (x: Mem)
    requires i <= |s| && ParseMember(s, i, depth, seen).Ok?
    ensures var Ok(m, p) := ParseMember(s, i, depth, seen); MemberRead(x, m, s[i..p], depth, seen)
    decreases |s| - i, 3
  {
    hide ParseValue, ParseString, WsEnd, Wf, Fits, TextRepeats, ValueOf, Source, Utf8, Ws, Runes, DupKey.Decode, MemText;
    var w := WsEnd(s, i);
    var Ok(units, q) := ParseString(s, w);
    var c := WsEnd(s, q);
    var k := WsEnd(s, c + 1);
    var Ok(v, n) := ParseValue(s, k, depth + 1);
    var p := WsEnd(s, n);
    var raw := StringFound(s, w);
    var node := ValueFound(s, k, depth + 1);
    SpacesFound(s, i);
    SpacesFound(s, q);
    SpacesFound(s, c + 1);
    SpacesFound(s, n);
    x := Mem(s[i..w], raw, s[q..c], s[c + 1..k], node, s[n..p]);
    MemBytes(x, s[i..w], s[w..q], s[q..c], s[c + 1..k], s[k..n], s[n..p]);
    KeyBytes(s, i, w, q, c, k, n, p);
  }

  lemma {:induction false} MembersFound(s: string, i: nat, depth: nat, seen: set<seq<int>>) returns (members: seq<Mem>)
    requires i <= |s| && ParseMembers(s, i, depth, seen).Ok?
    ensures var Ok(ms, e) := ParseMembers(s, i, depth, seen); MembersRead(members, ms, s[i..e], depth, seen)
    decreases |s| - i, 4
  {
    hide ParseMember, MemberRead, MembersRead, Runes;
    var x := MemberFound(s, i, depth, seen);
    var Ok(m, p) := ParseMember(s, i, depth, seen);
    if s[p] == '}' {
      members := [x];
      LastMember(x, m, s[i..p], depth, seen);
      assert s[i..p + 1] == s[i..p] + "}";
    } else {
      var rest := MembersFound(s, p + 1, depth, seen + {Key(m)});
      var Ok(ms, e) := ParseMembers(s, p + 1, depth, seen + {Key(m)});
      members := [x] + rest;
      MoreMembers(x, m, s[i..p], rest, ms, s[p + 1..e], depth, seen);
      assert s[i..e] == s[i..p] + ("," + s[p + 1..e]);
    }
  }

  lemma MemsText(x: Mem, rest: string)
    ensures x.before + (x.key + (x.colon + (":" + ((x.space + Source(x.node)) + (x.after + rest))))) == MemText(x) + rest
  {
    hide Source;
    var t := x.space + Source(x.node);
    assert t + (x.after + rest) == (t + x.after) + rest;
    assert ":" + ((t + x.after) + rest) == (":" + (t + x.after)) + rest;
    var u := ":" + (t + x.after);
    assert x.colon + (u + rest) == (x.colon + u) + rest;
    assert x.key + ((x.colon + u) + rest) == (x.key + (x.colon + u)) + rest;
  }

  lemma LastMember(x: Mem, m: Member, b: string, depth: nat, seen: set<seq<int>>)
    requires MemberRead(x, m, b, depth, seen)
    ensures MembersRead([x], [m], b + "}", depth, seen)
  {
    hide Utf8, Source, WfMem, Fits, TextRepeats, ValueOf, Runes, MemText;
    assert [x][1..] == [];
    NoMember(depth, seen);
    NoMember(depth, seen + {Key(m)});
    assert WfMems([x]);
    OneMem([x], seen);
    Utf8Concat(MemText(x), "}");
    Utf8Ascii("}");
    MemsText(x, "}");
    assert MembersOf([x]) == [m] + MembersOf([]);
  }

  lemma MoreMembers(x: Mem, m: Member, b: string, rest: seq<Mem>, ms: seq<Member>, b2: string, depth: nat, seen: set<seq<int>>)
    requires MemberRead(x, m, b, depth, seen) && MembersRead(rest, ms, b2, depth, seen + {Key(m)})
    ensures MembersRead([x] + rest, [m] + ms, b + ("," + b2), depth, seen)
  {
    hide Utf8, Source, WfMem, Fits, TextRepeats, ValueOf, Runes, MemText;
    var all := [x] + rest;
    assert all[1..] == rest;
    assert WfMems(all);
    var more := MemsSource(rest);
    Utf8Concat(MemText(x), "," + more);
    Utf8Concat(",", more);
    Utf8Ascii(",");
    MemsText(x, "," + more);
  }

  // ----- main result

  /** A line written out: a tree of JSON with spaces around it, nested within the cap, no key repeated in any object. */
  ghost predicate IsLine(s: string, before: string, c: Node, after: string) {
    Ws(before) && Ws(after) && Wf(c) && Fits(c, 0) && !TextRepeats(c) && s == Utf8(before + Source(c) + after)
  }

  lemma LineFound(s: string) returns (before: string, c: Node, after: string)
    requires ParseLine(s).Ok?
    ensures IsLine(s, before, c, after) && ParseLine(s) == Ok(ValueOf(c), |s|)
  {
    hide ParseValue, WsEnd, Wf, Fits, TextRepeats, ValueOf, Source, Utf8, Ws;
    var w := WsEnd(s, 0);
    var Ok(v, n) := ParseValue(s, w, 0);
    c := ValueFound(s, w, 0);
    before, after := s[..w], s[n..];
    SpacesFound(s, 0);
    SpacesFound(s, n);
    assert s[0..w] == before && s[n..|s|] == after;
    Utf8Concat(before + Source(c), after);
    Utf8Concat(before, Source(c));
    assert s == (s[0..w] + s[w..n]) + s[n..|s|];
  }

  /** The tokenizer accepts a line, and gives a value for it, exactly when the line is the bytes of a well-formed text with
      that value in which no object repeats a key. */
  lemma AcceptedExactly(s: string, v: Value)
    ensures ParseLine(s) == Ok(v, |s|) <==> exists before, c, after :: IsLine(s, before, c, after) && v == ValueOf(c)
    ensures ParseLine(s).Ok? ==> ParseLine(s).end == |s|
  {
    hide ParseLine, Wf, Fits, TextRepeats, ValueOf, Source, Utf8, Ws;
    if ParseLine(s).Ok? {
      var before, c, after := LineFound(s);
    }
    forall before, c, after | IsLine(s, before, c, after) && v == ValueOf(c)
      ensures ParseLine(s) == Ok(v, |s|)
    {
      TokenizerReads(before, c, after);
    }
  }
}
