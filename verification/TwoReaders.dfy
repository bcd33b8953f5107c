/** The two programs read every well-formed line alike: the duplicate-key scanner before JSON.parse in
    TypeScript, the strict tokenizer in Go. They part only where keys differ in lone surrogates alone. */
module TwoReaders {
  import opened Wrappers
  import opened Text
  import opened JsonLexer
  import opened JsonTokenizer
  import opened Encoding
  import opened DupKeyExact
  import opened Slices
  import DupKey
  import JsonPrinter
  import NumberGrammar

  // ----- a string literal of the text, read from its bytes

  lemma HexAscii(c: char)
    requires HexValue(c).Some?
    ensures c as int < 0x80
  {
  }

  /** An escape is the same characters as bytes. */
  lemma EscapeAscii(raw: string, k: nat)
    requires k < |raw| && raw[k] == '\\' && DupKey.KeyElement(raw, k).Some?
    ensures Ascii(raw[k..DupKey.KeyElement(raw, k).value.1])
  {
    hide HexValue;
    var e := DupKey.KeyElement(raw, k).value.1;
    var head := raw[k..e];
    if raw[k + 1] == 'u' {
      HexAscii(raw[k + 2]);
      HexAscii(raw[k + 3]);
      HexAscii(raw[k + 4]);
      HexAscii(raw[k + 5]);
    }
  }

  lemma EscapeReads(raw: string, k: nat, rest: string)
    requires k < |raw| && raw[k] == '\\' && DupKey.KeyElement(raw, k).Some?
    ensures var (u, e) := DupKey.KeyElement(raw, k).value;
            Element(raw[k..e] + rest, 0) == Some(Units(u, e - k))
  {
    hide HexValue;
    var e := DupKey.KeyElement(raw, k).value.1;
    var b := raw[k..e] + rest;
    assert b[0] == raw[k] && b[1] == raw[k + 1];
    if raw[k + 1] == 'u' { assert b[2] == raw[k + 2] && b[3] == raw[k + 3] && b[4] == raw[k + 4] && b[5] == raw[k + 5]; }
  }

  /** One element of the text is one element of the bytes, with the same code units. */
  lemma ElementReads(raw: string, k: nat, rest: string)
    requires k < |raw| && raw[k] != '"' && DupKey.KeyElement(raw, k).Some?
    ensures var (u, e) := DupKey.KeyElement(raw, k).value;
            var head := Utf8(raw[k..e]);
            head != "" && head[0] != '"' && Element(head + rest, 0) == Some(Units(u, |head|))
  {
    hide Element, Utf8, Hex4, SimpleEscape, RuneUnits, DecodeRune, EncodeChar, Same;
    var (u, e) := DupKey.KeyElement(raw, k).value;
    if raw[k] == '\\' {
      EscapeAscii(raw, k);
      Utf8Ascii(raw[k..e]);
      EscapeReads(raw, k, rest);
    } else {
      assert raw[k..e] == [raw[k]];
      Utf8One(raw[k]);
      var b := EncodeChar(raw[k]);
      PrefixSame(b, rest);
      DecodesChar(raw[k], b + rest, 0);
      RawElement(b + rest, 0, raw[k] as int, |b|);
      FirstByte(raw[k]);
      assert (b + rest)[0] == b[0];
    }
  }

  lemma FirstByte(c: char)
    ensures EncodeChar(c) != ""
  {
  }

  lemma {:induction false} BodyReads(raw: string, k: nat)
    requires k <= |raw| && DupKey.KeyBody(raw, k).Some?
    ensures var b := Utf8(raw[k..]);
            StringBody(b, 0) == Some(Units(DupKey.KeyBody(raw, k).value, |b|))
    decreases |raw| - k
  {
    hide Element, DupKey.KeyElement, Utf8, Same;
    if raw[k] == '"' {
      assert raw[k..] == "\"";
      Utf8Ascii("\"");
      QuoteEnds();
    } else {
      var (u, e) := DupKey.KeyElement(raw, k).value;
      assert raw[k..] == raw[k..e] + raw[e..];
      Utf8Concat(raw[k..e], raw[e..]);
      var head, rest := Utf8(raw[k..e]), Utf8(raw[e..]);
      ElementReads(raw, k, rest);
      BodyReads(raw, e);
      SuffixSame(head, rest);
      StringLocal(rest, 0, head + rest, |head|);
      assert (head + rest)[0] == head[0];
      BodyStep(head + rest, u, |head|);
    }
  }

  lemma StringReads(raw: string)
    requires DupKey.Decode(raw).Some?
    ensures ParseString(Utf8(raw), 0) == Ok(DupKey.Decode(raw).value, |Utf8(raw)|) && Utf8(raw)[0] == '"'
  {
    hide StringBody, DupKey.KeyBody, Utf8, Same;
    assert raw == "\"" + raw[1..];
    Utf8Concat("\"", raw[1..]);
    Utf8Ascii("\"");
    BodyReads(raw, 1);
    var b := Utf8(raw[1..]);
    SuffixSame("\"", b);
    StringLocal(b, 0, "\"" + b, 1);
  }

  // ----- what the tokenizer makes of a well-formed tree

  function KindOf(raw: string): Kind
    requires raw != ""
  {
    if raw[0] == 't' || raw[0] == 'f' then BoolKind else if raw[0] == 'n' then NullKind else NumberKind
  }

  function ValueOf(c: Node): Value
    requires Wf(c)
  {
    match c
    case Atom(raw) => Scalar(KindOf(raw), raw, [])
    case Str(raw) => Scalar(StringKind, Utf8(raw), DupKey.Decode(raw).value)
    case List(_, elems) => Arr(ValuesOf(elems))
    case Dict(_, members) => Obj(MembersOf(members))
  }

  function ValuesOf(elems: seq<Elem>): (r: seq<Value>)
    requires WfElems(elems)
  {
    if elems == [] then [] else assert WfElem(elems[0]); [ValueOf(elems[0].node)] + ValuesOf(elems[1..])
  }

  function MembersOf(members: seq<Mem>): (r: seq<Member>)
    requires WfMems(members)
  {
    if members == [] then []
    else
      assert WfMem(members[0]);
      [Member(Utf8(members[0].key), KeyOf(members[0]), ValueOf(members[0].node))] + MembersOf(members[1..])
  }

  /** Some object, at any depth, has two keys that are the same text once lone surrogates are replaced. */
  predicate TextRepeats(c: Node)
    requires Wf(c)
  {
    match c
    case Atom(_) => false
    case Str(_) => false
    case List(_, elems) => TextRepeatsInElems(elems)
    case Dict(_, members) => TextRepeatsInMems(members, {})
  }

  predicate TextRepeatsInElems(elems: seq<Elem>)
    requires WfElems(elems)
  {
    elems != [] && (assert WfElem(elems[0]); TextRepeats(elems[0].node) || TextRepeatsInElems(elems[1..]))
  }

  predicate TextRepeatsInMems(members: seq<Mem>, seen: set<seq<int>>)
    requires WfMems(members)
  {
    members != [] && (
      var key := Runes(KeyOf(members[0]));
      key in seen || TextRepeats(members[0].node) || TextRepeatsInMems(members[1..], seen + {key}))
  }

  /** Nesting stays within the tokenizer's cap. */
  predicate Fits(c: Node, depth: nat) {
    depth <= MAX_PARSE_DEPTH &&
    match c
    case Atom(_) => true
    case Str(_) => true
    case List(_, elems) => ElemsFit(elems, depth + 1)
    case Dict(_, members) => MemsFit(members, depth + 1)
  }

  predicate ElemsFit(elems: seq<Elem>, depth: nat) { elems != [] ==> Fits(elems[0].node, depth) && ElemsFit(elems[1..], depth) }

  predicate MemsFit(members: seq<Mem>, depth: nat) { members != [] ==> Fits(members[0].node, depth) && MemsFit(members[1..], depth) }

  function Outcome<T>(repeats: bool, v: T, end: nat): Parsed<T> { if repeats then Err(DupKey) else Ok(v, end) }

  // ----- at a place in the bytes

  predicate Solid(s: string, e: nat) { e <= |s| && (e < |s| ==> !IsWs(s[e])) }

  lemma {:induction false} SpacesEnd(s: string, i: nat, w: string)
    requires At(s, i, w) && Ws(w) && Solid(s, i + |w|)
    ensures WsEnd(s, i) == i + |w|
    decreases |w|
  {
    if w != "" {
      AtIndex(s, i, w, 0);
      assert [w[0]] + w[1..] == w;
      AtConcat(s, i, [w[0]], w[1..]);
      SpacesEnd(s, i + 1, w[1..]);
    }
  }

  lemma SpacesAscii(w: string)
    requires Ws(w)
    ensures Utf8(w) == w
  {
    Utf8Ascii(w);
  }

  lemma AtSplit(s: string, i: nat, a: string, b: string)
    requires At(s, i, Utf8(a + b))
    ensures At(s, i, Utf8(a)) && At(s, i + |Utf8(a)|, Utf8(b)) && |Utf8(a + b)| == |Utf8(a)| + |Utf8(b)|
  {
    Utf8Concat(a, b);
    AtConcat(s, i, Utf8(a), Utf8(b));
  }

  lemma MarkAt(s: string, i: nat, c: char)
    requires At(s, i, Utf8([c])) && c as int < 0x80
    ensures i < |s| && s[i] == c && |Utf8([c])| == 1
  {
    Utf8One(c);
    AtIndex(s, i, Utf8([c]), 0);
  }

  lemma HeadAt(c: Node, s: string, i: nat)
    requires Wf(c) && At(s, i, Utf8(Source(c)))
    ensures Utf8(Source(c)) != "" && i < |s| && !IsWs(s[i]) && s[i] != ']' && s[i] != '}' && s[i] != ','
    ensures c.List? <==> s[i] == '['
    ensures c.Dict? <==> s[i] == '{'
  {
    hide Wf, Source, At;
    SourceHead(c);
    var t := Source(c);
    HeadAscii(c);
    assert [t[0]] + t[1..] == t;
    AtSplit(s, i, [t[0]], t[1..]);
    MarkAt(s, i, t[0]);
  }

  lemma HeadAscii(c: Node)
    requires Wf(c)
    ensures Source(c) != "" && Source(c)[0] as int < 0x80
  {
    SourceHead(c);
    if c.Atom? {
      NumberGrammar.NumberExactly(c.raw);
      if IsNumber(c.raw) { NumberPlain(c.raw, 0); }
    }
  }

  lemma NumberReads(raw: string)
    requires IsNumber(raw)
    ensures Ascii(raw) && ParseScalar(raw, 0) == Ok(Scalar(NumberKind, raw, []), |raw|) && KindOf(raw) == NumberKind
  {
    hide NumberEnd, ParseString, ParseLiteral;
    forall k | 0 <= k < |raw|
      ensures raw[k] as int < 0x80
    {
      NumberPlain(raw, k);
    }
    assert raw[0..|raw|] == raw;
  }

  lemma WordReads(raw: string)
    requires raw == "true" || raw == "false" || raw == "null"
    ensures Ascii(raw) && ParseScalar(raw, 0) == Ok(Scalar(KindOf(raw), raw, []), |raw|)
  {
    hide NumberEnd, ParseString;
    assert raw[0..|raw|] == raw;
  }

  lemma AtomReads(raw: string)
    requires IsAtom(raw)
    ensures Utf8(raw) == raw && raw != "" && ParseScalar(raw, 0) == Ok(Scalar(KindOf(raw), raw, []), |raw|)
  {
    hide IsNumber, ParseScalar, KindOf, NumberGrammar.Spelled;
    NumberGrammar.NumberExactly(raw);
    if raw == "true" || raw == "false" || raw == "null" {
      WordReads(raw);
    } else {
      NumberReads(raw);
      NumberNotEmpty(raw);
    }
    Utf8Ascii(raw);
  }

  lemma NumberNotEmpty(raw: string)
    requires IsNumber(raw)
    ensures raw != ""
  {
  }

  lemma ScalarValue(c: Node, s: string, i: nat, depth: nat)
    requires Wf(c) && (c.Atom? || c.Str?) && depth <= MAX_PARSE_DEPTH
    requires At(s, i, Utf8(Source(c))) && Ends(s, i + |Utf8(Source(c))|)
    ensures i <= |s| && ParseValue(s, i, depth) == Ok(ValueOf(c), i + |Utf8(Source(c))|)
  {
    hide Same, ParseString, NumberEnd, Utf8, DupKey.Decode, IsAtom;
    var v, b := ValueOf(c), Utf8(c.raw);
    HeadAt(c, s, i);
    if c.Atom? {
      AtomReads(c.raw);
    } else {
      StringReads(c.raw);
      assert b[0..|b|] == b;
    }
    assert b[0..|b|] == b == s[i..i + |b|];
    SameSlice(b, 0, s, i, |b|);
    JsonPrinter.ScalarParses(v, s, i);
  }

  // ----- values, items and members

  lemma {:induction false} ReadsValue(c: Node, s: string, i: nat, depth: nat)
    requires Wf(c) && Fits(c, depth) && At(s, i, Utf8(Source(c))) && Ends(s, i + |Utf8(Source(c))|)
    ensures i <= |s| && ParseValue(s, i, depth) == Outcome(TextRepeats(c), ValueOf(c), i + |Utf8(Source(c))|)
    decreases c, 2
  {
    hide At, Utf8, Ends, IsAtom, DupKey.Decode, ParseScalar, ParseItems, ParseMembers, WfElems, WfMems, ElemsSource, MemsSource, Ws;
    HeadAt(c, s, i);
    match c
    case Atom(_) => ScalarValue(c, s, i, depth);
    case Str(_) => ScalarValue(c, s, i, depth);
    case List(pad, elems) => ReadsList(pad, elems, s, i, depth);
    case Dict(pad, members) => ReadsDict(pad, members, s, i, depth);
  }

  lemma {:induction false} ReadsList(pad: string, elems: seq<Elem>, s: string, i: nat, depth: nat)
    requires Ws(pad) && WfElems(elems) && depth <= MAX_PARSE_DEPTH && ElemsFit(elems, depth + 1)
    requires At(s, i, Utf8(Source(List(pad, elems))))
    ensures i <= |s| && ParseValue(s, i, depth)
         == Outcome(TextRepeatsInElems(elems), Arr(ValuesOf(elems)), i + |Utf8(Source(List(pad, elems)))|)
    decreases elems, 2
  {
    hide At, Utf8, ParseItems, ElemsSource, WfElem, Ws, ElemsFit;
    var rest := if elems == [] then pad + "]" else ElemsSource(elems);
    AtSplit(s, i, "[", rest);
    MarkAt(s, i, '[');
    if elems == [] {
      AtSplit(s, i + 1, pad, "]");
      SpacesAscii(pad);
      MarkAt(s, i + 1 + |pad|, ']');
      SpacesEnd(s, i + 1, pad);
    } else {
      ItemsOpen(elems, s, i + 1, depth);
      ReadsItems(elems, s, i + 1, depth);
    }
  }

  lemma {:induction false} WsTwice(s: string, i: nat)
    requires i <= |s|
    ensures WsEnd(s, WsEnd(s, i)) == WsEnd(s, i)
    decreases |s| - i
  {
    if i < |s| && IsWs(s[i]) { WsTwice(s, i + 1); }
  }

  lemma SameItems(s: string, i: nat, depth: nat)
    requires i <= |s|
    ensures ParseItems(s, WsEnd(s, i), depth) == ParseItems(s, i, depth)
  {
    hide ParseValue;
    WsTwice(s, i);
    assert ParseItem(s, WsEnd(s, i), depth) == ParseItem(s, i, depth);
  }

  lemma SameMembers(s: string, i: nat, depth: nat, seen: set<seq<int>>)
    requires i <= |s|
    ensures ParseMembers(s, WsEnd(s, i), depth, seen) == ParseMembers(s, i, depth, seen)
  {
    hide ParseValue, ParseString, Runes;
    WsTwice(s, i);
    assert ParseKey(s, WsEnd(s, i), seen) == ParseKey(s, i, seen);
    assert ParseMember(s, WsEnd(s, i), depth, seen) == ParseMember(s, i, depth, seen);
  }

  lemma SpacesBefore(w: string, c: Node, s: string, i: nat)
    requires Ws(w) && Wf(c) && At(s, i, Utf8(w + Source(c)))
    ensures At(s, i + |w|, Utf8(Source(c))) && |Utf8(w + Source(c))| == |w| + |Utf8(Source(c))|
    ensures i <= |s| && WsEnd(s, i) == i + |w| < |s| && s[i + |w|] != ']' && s[i + |w|] != '}'
  {
    hide At, Utf8, Source, Wf, Ws;
    AtSplit(s, i, w, Source(c));
    SpacesAscii(w);
    HeadAt(c, s, i + |w|);
    SpacesEnd(s, i, w);
    AtBound(s, i, w);
  }

  lemma AtBound(s: string, i: nat, w: string)
    requires At(s, i, w)
    ensures i + |w| <= |s|
  {
  }

  lemma ItemsOpen(elems: seq<Elem>, s: string, i: nat, depth: nat)
    requires elems != [] && WfElems(elems) && At(s, i, Utf8(ElemsSource(elems)))
    ensures i <= |s| && var w := WsEnd(s, i); w < |s| && s[w] != ']' && ParseItems(s, w, depth) == ParseItems(s, i, depth)
  {
    hide At, Utf8, Source, Wf, Ws, ParseItems;
    var e := elems[0];
    var rest := e.after + (if |elems| == 1 then "]" else "," + ElemsSource(elems[1..]));
    assert WfElem(e);
    AtSplit(s, i, e.before + Source(e.node), rest);
    SpacesBefore(e.before, e.node, s, i);
    SameItems(s, i, depth);
  }

  /** A structural character at `t`. */
  predicate ClosedAt(s: string, t: nat) { t < |s| && (s[t] == ',' || s[t] == ']' || s[t] == '}') }

  /** A value, the spaces behind it, and what closes or continues. */
  lemma {:induction false} ReadsThrough(c: Node, after: string, s: string, i: nat, depth: nat)
    requires Wf(c) && Ws(after) && Fits(c, depth) && At(s, i, Utf8(Source(c)))
    requires At(s, i + |Utf8(Source(c))|, after) && ClosedAt(s, i + |Utf8(Source(c))| + |after|)
    ensures var e := i + |Utf8(Source(c))|;
            i <= e < |s| && ParseValue(s, i, depth) == Outcome(TextRepeats(c), ValueOf(c), e) && WsEnd(s, e) == e + |after|
    decreases c, 3
  {
    hide At, Utf8, Source, Wf, ParseValue, ValueOf, TextRepeats, Fits;
    var e := i + |Utf8(Source(c))|;
    SpacesEnd(s, e, after);
    if after != "" { AtIndex(s, e, after, 0); }
    ReadsValue(c, s, i, depth);
  }

  /** The text of an item, as its spaces, its value and the rest. */
  lemma ItemSplit(elems: seq<Elem>, s: string, i: nat)
    requires elems != [] && WfElems(elems) && At(s, i, Utf8(ElemsSource(elems)))
    ensures var e := elems[0];
            var rest := if |elems| == 1 then "]" else "," + ElemsSource(elems[1..]);
            var n := i + |e.before| + |Utf8(Source(e.node))|;
            && At(s, i, Utf8(e.before + Source(e.node))) && At(s, i + |e.before|, Utf8(Source(e.node))) && At(s, n, e.after)
            && At(s, n + |e.after|, Utf8(rest)) && n + |e.after| + |Utf8(rest)| == i + |Utf8(ElemsSource(elems))|
  {
    hide At, Utf8, Source, Wf, Ws;
    var e := elems[0];
    assert WfElem(e);
    var head := e.before + Source(e.node);
    var rest := if |elems| == 1 then "]" else "," + ElemsSource(elems[1..]);
    AtSplit(s, i, head, e.after + rest);
    SpacesBefore(e.before, e.node, s, i);
    var n := i + |Utf8(head)|;
    AtSplit(s, n, e.after, rest);
    SpacesAscii(e.after);
  }

  lemma {:induction false} ReadsItem(e: Elem, s: string, i: nat, depth: nat)
    requires WfElem(e) && Fits(e.node, depth + 1) && At(s, i, Utf8(e.before + Source(e.node)))
    requires At(s, i + |e.before| + |Utf8(Source(e.node))|, e.after)
    requires ClosedAt(s, i + |e.before| + |Utf8(Source(e.node))| + |e.after|)
    ensures i <= |s| && ParseItem(s, i, depth)
         == Outcome(TextRepeats(e.node), ValueOf(e.node), i + |e.before| + |Utf8(Source(e.node))| + |e.after|)
    decreases e, 4
  {
    hide At, Utf8, Source, Wf, Ws, ParseValue, ValueOf, TextRepeats, Fits;
    SpacesBefore(e.before, e.node, s, i);
    ReadsThrough(e.node, e.after, s, i + |e.before|, depth + 1);
  }

  lemma {:induction false} ReadsItems(elems: seq<Elem>, s: string, i: nat, depth: nat)
    requires elems != [] && WfElems(elems) && ElemsFit(elems, depth + 1) && At(s, i, Utf8(ElemsSource(elems)))
    ensures i <= |s| && ParseItems(s, i, depth)
         == Outcome(TextRepeatsInElems(elems), ValuesOf(elems), i + |Utf8(ElemsSource(elems))|)
    decreases elems, 1
  {
    hide At, Utf8, Source, WfElem, Ws, ParseItem, ValueOf, TextRepeats, Fits, ElemsSource;
    var e, last := elems[0], |elems| == 1;
    var rest := if last then "]" else "," + ElemsSource(elems[1..]);
    ItemSplit(elems, s, i);
    var t := i + |e.before| + |Utf8(Source(e.node))| + |e.after|;
    RestHead(s, t, rest, last, if last then "" else ElemsSource(elems[1..]), ']');
    ReadsItem(e, s, i, depth);
    if last {
      OneElem(elems);
    } else {
      AtSplit(s, t, ",", ElemsSource(elems[1..]));
      ReadsItems(elems[1..], s, t + 1, depth);
    }
  }

  lemma OneElem(elems: seq<Elem>)
    requires |elems| == 1 && WfElems(elems)
    ensures WfElem(elems[0]) && ValuesOf(elems) == [ValueOf(elems[0].node)] && TextRepeatsInElems(elems) == TextRepeats(elems[0].node)
  {
    hide ValueOf, TextRepeats, WfElem;
    assert elems[1..] == [];
  }

  /** What follows an entry: its closing character, or a comma and more. */
  lemma RestHead(s: string, t: nat, rest: string, last: bool, more: string, close: char)
    requires At(s, t, Utf8(rest)) && rest == (if last then [close] else "," + more) && close as int < 0x80
    ensures t < |s| && s[t] == (if last then close else ',') && (last ==> |Utf8(rest)| == 1) && |Utf8(",")| == 1
  {
    hide At, Utf8;
    Utf8One(',');
    if last {
      MarkAt(s, t, close);
    } else {
      AtSplit(s, t, ",", more);
      MarkAt(s, t, ',');
    }
  }

  lemma {:induction false} ReadsDict(pad: string, members: seq<Mem>, s: string, i: nat, depth: nat)
    requires Ws(pad) && WfMems(members) && depth <= MAX_PARSE_DEPTH && MemsFit(members, depth + 1)
    requires At(s, i, Utf8(Source(Dict(pad, members))))
    ensures i <= |s| && ParseValue(s, i, depth)
         == Outcome(TextRepeatsInMems(members, {}), Obj(MembersOf(members)), i + |Utf8(Source(Dict(pad, members)))|)
    decreases members, 2
  {
    hide At, Utf8, ParseMembers, MemsSource, WfMem, Ws, MemsFit, MembersOf, TextRepeatsInMems;
    var rest := if members == [] then pad + "}" else MemsSource(members);
    AtSplit(s, i, "{", rest);
    MarkAt(s, i, '{');
    if members == [] {
      AtSplit(s, i + 1, pad, "}");
      SpacesAscii(pad);
      MarkAt(s, i + 1 + |pad|, '}');
      SpacesEnd(s, i + 1, pad);
      NoMembers();
    } else {
      MembersOpen(members, s, i + 1, depth);
      ReadsMembers(members, s, i + 1, depth, {});
    }
  }

  lemma NoMembers()
    ensures MembersOf([]) == [] && !TextRepeatsInMems([], {})
  {
  }

  /** Where the pieces of a member's name stand. */
  lemma NameParts(m: Mem, s: string, i: nat)
    requires WfMem(m) && At(s, i, Utf8(m.before + (m.key + (m.colon + ":"))))
    ensures var p := i + |m.before|;
            var r := p + |Utf8(m.key)| + |m.colon|;
            && At(s, i, m.before) && At(s, p, Utf8(m.key)) && At(s, p + |Utf8(m.key)|, m.colon) && r < |s| && s[r] == ':'
            && r + 1 == i + |Utf8(m.before + (m.key + (m.colon + ":")))|
  {
    hide At, Utf8, Wf, Ws, DupKey.Decode;
    AtSplit(s, i, m.before, m.key + (m.colon + ":"));
    SpacesAscii(m.before);
    AtSplit(s, i + |m.before|, m.key, m.colon + ":");
    AtSplit(s, i + |m.before| + |Utf8(m.key)|, m.colon, ":");
    SpacesAscii(m.colon);
    MarkAt(s, i + |m.before| + |Utf8(m.key)| + |m.colon|, ':');
  }

  lemma QuotedAt(raw: string, s: string, p: nat)
    requires DupKey.Decode(raw).Some? && At(s, p, Utf8(raw))
    ensures p < |s| && s[p] == '"' && ParseString(s, p) == Ok(DupKey.Decode(raw).value, p + |Utf8(raw)|)
    ensures p + |Utf8(raw)| <= |s| && s[p..p + |Utf8(raw)|] == Utf8(raw)
  {
    hide At, Utf8, DupKey.Decode, Same, StringBody, ParseString;
    var b := Utf8(raw);
    StringReads(raw);
    SliceAt(s, p, b);
    SameSlice(b, 0, s, p, |b|);
    JsonPrinter.StringParses(b, DupKey.Decode(raw).value, s, p);
  }

  /** The key of a member, its colon and the spaces around them, up to where its value begins. */
  lemma ReadsKey(m: Mem, s: string, i: nat, seen: set<seq<int>>)
    requires WfMem(m) && At(s, i, Utf8(m.before + (m.key + (m.colon + ":")))) && At(s, i + |Utf8(m.before + (m.key + (m.colon + ":")))|, m.space)
    requires Solid(s, i + |Utf8(m.before + (m.key + (m.colon + ":")))| + |m.space|)
    ensures i <= |s| && WsEnd(s, i) < |s| && s[WsEnd(s, i)] == '"'
    ensures ParseKey(s, i, seen) == if Runes(KeyOf(m)) in seen then Err(DupKey)
                                    else Ok((Utf8(m.key), KeyOf(m)), i + |Utf8(m.before + (m.key + (m.colon + ":")))| + |m.space|)
  {
    hide At, Utf8, Wf, Ws, DupKey.Decode, Runes, ParseString, WsEnd;
    var p, k := i + |m.before|, i + |Utf8(m.before + (m.key + (m.colon + ":")))|;
    var q := p + |Utf8(m.key)|;
    var r := q + |m.colon|;
    NameParts(m, s, i);
    QuotedAt(m.key, s, p);
    SpacesEnd(s, i, m.before);
    SpacesEnd(s, q, m.colon);
    SpacesEnd(s, r + 1, m.space);
  }

  lemma SliceAt(s: string, p: nat, b: string)
    requires At(s, p, b)
    ensures p + |b| <= |s| && s[p..p + |b|] == b == b[0..|b|]
  {
  }

  /** The text of a member, as its key with the colon, its spaces, its value, and the rest. */
  lemma MemberSplit(members: seq<Mem>, s: string, i: nat)
    requires members != [] && WfMems(members) && At(s, i, Utf8(MemsSource(members)))
    ensures var m := members[0];
            var rest := if |members| == 1 then "}" else "," + MemsSource(members[1..]);
            var name := Utf8(m.before + (m.key + (m.colon + ":")));
            var k := i + |name| + |m.space|;
            var n := k + |Utf8(Source(m.node))|;
            && At(s, i, name) && At(s, i + |name|, m.space) && At(s, k, Utf8(Source(m.node))) && At(s, n, m.after)
            && At(s, n + |m.after|, Utf8(rest)) && n + |m.after| + |Utf8(rest)| == i + |Utf8(MemsSource(members))|
  {
    hide At, Utf8, Source, Wf, Ws, DupKey.Decode;
    MemsSplit(members);
    var m := members[0];
    assert WfMem(m);
    var rest := if |members| == 1 then "}" else "," + MemsSource(members[1..]);
    var name, body := m.before + (m.key + (m.colon + ":")), m.space + Source(m.node);
    assert MemsSource(members) == name + (body + (m.after + rest));
    AtSplit(s, i, name, body + (m.after + rest));
    var a := i + |Utf8(name)|;
    AtSplit(s, a, body, m.after + rest);
    AtSplit(s, a, m.space, Source(m.node));
    SpacesAscii(m.space);
    var n := a + |Utf8(body)|;
    AtSplit(s, n, m.after, rest);
    SpacesAscii(m.after);
  }

  lemma MembersOpen(members: seq<Mem>, s: string, i: nat, depth: nat)
    requires members != [] && WfMems(members) && At(s, i, Utf8(MemsSource(members)))
    ensures i <= |s| && var w := WsEnd(s, i); w < |s| && s[w] != '}' && ParseMembers(s, w, depth, {}) == ParseMembers(s, i, depth, {})
  {
    hide At, Utf8, Source, Wf, Ws, ParseMembers, DupKey.Decode, ParseKey, MemsSource;
    var m := members[0];
    assert WfMem(m);
    MemberSplit(members, s, i);
    HeadAt(m.node, s, i + |Utf8(m.before + (m.key + (m.colon + ":")))| + |m.space|);
    ReadsKey(m, s, i, {});
    SameMembers(s, i, depth, {});
  }

  lemma {:induction false} ReadsMember(m: Mem, s: string, i: nat, depth: nat, seen: set<seq<int>>)
    requires WfMem(m) && Fits(m.node, depth + 1)
    requires At(s, i, Utf8(m.before + (m.key + (m.colon + ":")))) && At(s, i + |Utf8(m.before + (m.key + (m.colon + ":")))|, m.space)
    requires var k := i + |Utf8(m.before + (m.key + (m.colon + ":")))| + |m.space|;
             var n := k + |Utf8(Source(m.node))|;
             At(s, k, Utf8(Source(m.node))) && At(s, n, m.after) && ClosedAt(s, n + |m.after|)
    ensures var t := i + |Utf8(m.before + (m.key + (m.colon + ":")))| + |m.space| + |Utf8(Source(m.node))| + |m.after|;
            i <= |s| && ParseMember(s, i, depth, seen)
            == Outcome(Runes(KeyOf(m)) in seen || TextRepeats(m.node), Member(Utf8(m.key), KeyOf(m), ValueOf(m.node)), t)
    decreases m, 4
  {
    hide At, Utf8, Source, Wf, Ws, ParseValue, ValueOf, TextRepeats, Fits, DupKey.Decode, ParseKey, Runes;
    var k := i + |Utf8(m.before + (m.key + (m.colon + ":")))| + |m.space|;
    HeadAt(m.node, s, k);
    ReadsKey(m, s, i, seen);
    ReadsThrough(m.node, m.after, s, k, depth + 1);
  }

  lemma {:induction false} ReadsMembers(members: seq<Mem>, s: string, i: nat, depth: nat, seen: set<seq<int>>)
    requires members != [] && WfMems(members) && MemsFit(members, depth + 1) && At(s, i, Utf8(MemsSource(members)))
    ensures i <= |s| && ParseMembers(s, i, depth, seen)
         == Outcome(TextRepeatsInMems(members, seen), MembersOf(members), i + |Utf8(MemsSource(members))|)
    decreases members, 1
  {
    hide At, Utf8, Source, WfMem, Ws, ParseMember, ValueOf, TextRepeats, Fits, DupKey.Decode, MemsSource, Runes;
    var m, last := members[0], |members| == 1;
    var rest := if last then "}" else "," + MemsSource(members[1..]);
    MemberSplit(members, s, i);
    var k := i + |Utf8(m.before + (m.key + (m.colon + ":")))| + |m.space|;
    var t := k + |Utf8(Source(m.node))| + |m.after|;
    RestHead(s, t, rest, last, if last then "" else MemsSource(members[1..]), '}');
    ReadsMember(m, s, i, depth, seen);
    if last {
      OneMem(members, seen);
    } else {
      AtSplit(s, t, ",", MemsSource(members[1..]));
      ReadsMembers(members[1..], s, t + 1, depth, seen + {Runes(KeyOf(m))});
    }
  }

  lemma OneMem(members: seq<Mem>, seen: set<seq<int>>)
    requires |members| == 1 && WfMems(members)
    ensures WfMem(members[0]) && MembersOf(members) == [Member(Utf8(members[0].key), KeyOf(members[0]), ValueOf(members[0].node))]
    ensures TextRepeatsInMems(members, seen) == (Runes(KeyOf(members[0])) in seen || TextRepeats(members[0].node))
  {
    hide ValueOf, TextRepeats, WfMem, Runes, Utf8;
    assert members[1..] == [];
  }

  /** The tokenizer on the bytes of any well-formed line nested within its cap: a repeated key is refused, and
      anything else is read as the tree that is there, every lexeme kept. */
  lemma TokenizerReads(before: string, c: Node, after: string)
    requires Wf(c) && Fits(c, 0) && Ws(before) && Ws(after)
    ensures var s := Utf8(before + Source(c) + after);
            ParseLine(s) == Outcome(TextRepeats(c), ValueOf(c), |s|)
  {
    hide At, Utf8, Source, Wf, Ws, ParseValue, ValueOf, TextRepeats, Fits;
    var s := Utf8(before + Source(c) + after);
    assert s[0..|s|] == s;
    AllAt(s);
    AtSplit(s, 0, before + Source(c), after);
    SpacesBefore(before, c, s, 0);
    SpacesAscii(after);
    var e := |before| + |Utf8(Source(c))|;
    SpacesEnd(s, e, after);
    if after != "" { AtIndex(s, e, after, 0); SpaceAt(after, 0); }
    ReadsValue(c, s, |before|, 0);
  }

  lemma AllAt(s: string)
    ensures At(s, 0, s)
  {
    assert s[0..|s|] == s;
  }

  lemma SpaceAt(w: string, k: nat)
    requires Ws(w) && k < |w|
    ensures IsWs(w[k])
  {
  }

  // ----- keys equal as code units and as text

  /** No surrogate stands alone. */
  predicate WellPaired(units: seq<int>) {
    units == [] ||
    if 0xD800 <= units[0] < 0xDC00 then |units| > 1 && 0xDC00 <= units[1] < 0xE000 && WellPaired(units[2..])
    else 0 <= units[0] < 0x10000 && !(0xDC00 <= units[0] < 0xE000) && WellPaired(units[1..])
  }

  lemma {:induction false} RunesInjective(a: seq<int>, b: seq<int>)
    requires WellPaired(a) && WellPaired(b) && Runes(a) == Runes(b)
    ensures a == b
    decreases |a|
  {
    if a != [] && b != [] {
      var m, n := if 0xD800 <= a[0] < 0xDC00 then 2 else 1, if 0xD800 <= b[0] < 0xDC00 then 2 else 1;
      assert Runes(a)[1..] == Runes(a[m..]) && Runes(b)[1..] == Runes(b[n..]);
      assert Runes(a)[0] == Runes(b)[0];
      RunesInjective(a[m..], b[n..]);
      if m == 2 { SamePair(a[0], a[1], b[0], b[1]); }
      assert a == a[..m] + a[m..] && b == b[..n] + b[n..];
    }
  }

  lemma SamePair(a: int, b: int, c: int, d: int)
    requires 0xD800 <= a < 0xDC00 && 0xDC00 <= b < 0xE000 && 0xD800 <= c < 0xDC00 && 0xDC00 <= d < 0xE000
    requires 0x10000 + (a - 0xD800) * 0x400 + (b - 0xDC00) == 0x10000 + (c - 0xD800) * 0x400 + (d - 0xDC00)
    ensures a == c && b == d
  {
  }

  /** No key anywhere holds a lone surrogate. */
  predicate Paired(c: Node)
    requires Wf(c)
  {
    match c
    case Atom(_) => true
    case Str(_) => true
    case List(_, elems) => ElemsPaired(elems)
    case Dict(_, members) => MemsPaired(members)
  }

  predicate ElemsPaired(elems: seq<Elem>)
    requires WfElems(elems)
  {
    elems != [] ==> (assert WfElem(elems[0]); Paired(elems[0].node)) && ElemsPaired(elems[1..])
  }

  predicate MemsPaired(members: seq<Mem>)
    requires WfMems(members)
  {
    members != [] ==> WellPaired(KeyOf(members[0])) && Paired(members[0].node) && MemsPaired(members[1..])
  }

  /** A key as the tokenizer compares it: lone surrogates replaced. */
  function KeyText(m: Mem): Option<seq<int>> {
    match DupKey.Decode(m.key)
    case Some(units) => Some(Runes(units))
    case None => None
  }

  /** Two keys that are told apart by lone surrogates alone. */
  predicate Twins(m: Mem, n: Mem) { DupKey.Decode(m.key) != DupKey.Decode(n.key) && KeyText(m) == KeyText(n) }

  predicate TwinsAmong(members: seq<Mem>) { exists i, j :: 0 <= i < j < |members| && Twins(members[i], members[j]) }

  /** Some object, at any depth, has two such keys. */
  ghost predicate HasTwins(c: Node)
    requires Wf(c)
    decreases c
  {
    match c
    case Atom(_) => false
    case Str(_) => false
    case List(_, elems) => TwinsInElems(elems)
    case Dict(_, members) => TwinsAmong(members) || TwinsInMems(members)
  }

  ghost predicate TwinsInElems(elems: seq<Elem>)
    requires WfElems(elems)
    decreases elems, 0
  {
    elems != [] && (assert WfElem(elems[0]); HasTwins(elems[0].node) || TwinsInElems(elems[1..]))
  }

  ghost predicate TwinsInMems(members: seq<Mem>)
    requires WfMems(members)
    decreases members, 0
  {
    members != [] && (assert WfMem(members[0]); HasTwins(members[0].node) || TwinsInMems(members[1..]))
  }

  predicate RepeatsText(members: seq<Mem>) { exists i, j :: 0 <= i < j < |members| && KeyText(members[i]) == KeyText(members[j]) }

  lemma RepeatsEither(members: seq<Mem>)
    ensures RepeatsText(members) <==> RepeatsKey(members) || TwinsAmong(members)
  {
    hide DupKey.Decode, Runes;
    if i, j :| 0 <= i < j < |members| && KeyText(members[i]) == KeyText(members[j]) {
      assert DupKey.Decode(members[i].key) == DupKey.Decode(members[j].key) || Twins(members[i], members[j]);
    }
    if i, j :| 0 <= i < j < |members| && DupKey.Decode(members[i].key) == DupKey.Decode(members[j].key) {
      assert KeyText(members[i]) == KeyText(members[j]);
    }
    if i, j :| 0 <= i < j < |members| && Twins(members[i], members[j]) {
      assert KeyText(members[i]) == KeyText(members[j]);
    }
  }

  predicate TextSeen(members: seq<Mem>, seen: set<seq<int>>, j: nat)
    requires j < |members|
  {
    KeyText(members[j]).Some? && KeyText(members[j]).value in seen
  }

  ghost predicate AnySeen(members: seq<Mem>, seen: set<seq<int>>) { exists j :: 0 <= j < |members| && TextSeen(members, seen, j) }

  lemma FirstText(members: seq<Mem>)
    requires members != [] && WfMems(members)
    ensures WfMem(members[0]) && KeyText(members[0]) == Some(Runes(KeyOf(members[0])))
  {
    hide DupKey.Decode, Wf, Runes;
  }

  /** Texts repeated or seen before: the first member, then the rest with its text seen too. */
  lemma TextStep(members: seq<Mem>, seen: set<seq<int>>)
    requires members != [] && WfMems(members)
    ensures var text, rest := Runes(KeyOf(members[0])), members[1..];
            RepeatsText(members) || AnySeen(members, seen)
            <==> text in seen || RepeatsText(rest) || AnySeen(rest, seen + {text})
  {
    hide DupKey.Decode, Wf, Runes, KeyText;
    FirstText(members);
    var text, rest := Runes(KeyOf(members[0])), members[1..];
    if i, j :| 0 <= i < j < |members| && KeyText(members[i]) == KeyText(members[j]) {
      if i == 0 { assert TextSeen(rest, seen + {text}, j - 1); } else { assert rest[i - 1] == members[i] && rest[j - 1] == members[j]; }
    }
    if j :| 0 <= j < |members| && TextSeen(members, seen, j) {
      if j > 0 { assert TextSeen(rest, seen + {text}, j - 1); }
    }
    if text in seen { assert TextSeen(members, seen, 0); }
    if i, j :| 0 <= i < j < |rest| && KeyText(rest[i]) == KeyText(rest[j]) {
      assert members[i + 1] == rest[i] && members[j + 1] == rest[j];
    }
    if j :| 0 <= j < |rest| && TextSeen(rest, seen + {text}, j) {
      assert members[j + 1] == rest[j];
      if KeyText(rest[j]).value in seen { assert TextSeen(members, seen, j + 1); } else {
        assert KeyText(members[0]) == KeyText(members[j + 1]);
      }
    }
  }

  /** What is a repeated key for the tokenizer: one for the scanner, or two told apart by lone surrogates alone. */
  lemma {:induction false} RepeatsExactly(c: Node)
    requires Wf(c)
    ensures TextRepeats(c) <==> HasDuplicate(c) || HasTwins(c)
    decreases c, 1
  {
    hide RepeatsText, RepeatsKey, TwinsAmong, AnySeen;
    match c
    case Atom(_) =>
    case Str(_) =>
    case List(_, elems) => RepeatsInElems(elems);
    case Dict(_, members) =>
      RepeatsInMems(members, {});
      RepeatsEither(members);
      NoneSeen(members);
  }

  lemma NoneSeen(members: seq<Mem>)
    ensures !AnySeen(members, {})
  {
  }

  lemma {:induction false} RepeatsInElems(elems: seq<Elem>)
    requires WfElems(elems)
    ensures TextRepeatsInElems(elems) <==> AnyElem(elems) || TwinsInElems(elems)
    decreases elems, 0
  {
    hide HasDuplicate, HasTwins, TextRepeats, Wf;
    if elems != [] {
      assert WfElem(elems[0]);
      RepeatsExactly(elems[0].node);
      RepeatsInElems(elems[1..]);
    }
  }

  lemma {:induction false} RepeatsInMems(members: seq<Mem>, seen: set<seq<int>>)
    requires WfMems(members)
    ensures TextRepeatsInMems(members, seen)
       <==> RepeatsText(members) || AnySeen(members, seen) || AnyMem(members) || TwinsInMems(members)
    decreases members, 0
  {
    hide HasDuplicate, HasTwins, TextRepeats, Wf, Runes, DupKey.Decode, AnySeen, RepeatsText;
    if members == [] {
      NoTexts(seen);
    } else {
      assert WfMem(members[0]);
      RepeatsExactly(members[0].node);
      RepeatsInMems(members[1..], seen + {Runes(KeyOf(members[0]))});
      TextStep(members, seen);
    }
  }

  lemma NoTexts(seen: set<seq<int>>)
    ensures !RepeatsText([]) && !AnySeen([], seen)
  {
  }

  /** Without lone surrogates there are no such keys. */
  lemma {:induction false} PairedApart(c: Node)
    requires Wf(c) && Paired(c)
    ensures !HasTwins(c)
    decreases c, 1
  {
    hide TwinsAmong, WellPaired;
    match c
    case Atom(_) =>
    case Str(_) =>
    case List(_, elems) => PairedElems(elems);
    case Dict(_, members) =>
      PairedMems(members);
      forall i, j | 0 <= i < j < |members|
        ensures !Twins(members[i], members[j])
      {
        NoTwins(members, i, j);
      }
      assert !TwinsAmong(members) by { NotAmong(members); }
  }

  lemma NotAmong(members: seq<Mem>)
    requires forall i, j :: 0 <= i < j < |members| ==> !Twins(members[i], members[j])
    ensures !TwinsAmong(members)
  {
    hide Twins;
  }

  lemma {:induction false} PairedAt(members: seq<Mem>, i: nat)
    requires WfMems(members) && MemsPaired(members) && i < |members|
    ensures DupKey.Decode(members[i].key).Some? && WellPaired(DupKey.Decode(members[i].key).value)
  {
    hide Wf, Paired, WellPaired, DupKey.Decode;
    if i > 0 { PairedAt(members[1..], i - 1); }
  }

  lemma NoTwins(members: seq<Mem>, i: nat, j: nat)
    requires WfMems(members) && MemsPaired(members) && i < j < |members|
    ensures !Twins(members[i], members[j])
  {
    hide WfMems, MemsPaired, WellPaired, Runes, DupKey.Decode;
    PairedAt(members, i);
    PairedAt(members, j);
    var a, b := DupKey.Decode(members[i].key).value, DupKey.Decode(members[j].key).value;
    if Runes(a) == Runes(b) { RunesInjective(a, b); }
  }

  lemma {:induction false} PairedElems(elems: seq<Elem>)
    requires WfElems(elems) && ElemsPaired(elems)
    ensures !TwinsInElems(elems)
    decreases elems, 0
  {
    hide HasTwins, Paired, Wf;
    if elems != [] {
      assert WfElem(elems[0]);
      PairedApart(elems[0].node);
      PairedElems(elems[1..]);
    }
  }

  lemma {:induction false} PairedMems(members: seq<Mem>)
    requires WfMems(members) && MemsPaired(members)
    ensures !TwinsInMems(members)
    decreases members, 0
  {
    hide HasTwins, Paired, Wf, WellPaired, DupKey.Decode;
    if members != [] {
      assert WfMem(members[0]);
      PairedApart(members[0].node);
      PairedMems(members[1..]);
    }
  }

  // ----- main result

  /** On every well-formed line nested within the cap: the tokenizer refuses what the scanner reports and keys told
      apart by lone surrogates alone, and reads everything else as the tree that is there. So the two judge the keys
      of a line alike exactly when it has a duplicate or no such keys, and so wherever no key holds a lone surrogate. */
  lemma ReadersAgree(before: string, c: Node, after: string)
    requires Wf(c) && Fits(c, 0) && Ws(before) && Ws(after)
    ensures var line := before + Source(c) + after;
            var found, read := DupKey.FindDuplicateKey(line).Some?, ParseLine(Utf8(line));
            && read == Outcome(found || HasTwins(c), ValueOf(c), |Utf8(line)|)
            && ((found <==> read == Err(DupKey)) <==> HasDuplicate(c) || !HasTwins(c))
            && (Paired(c) ==> !HasTwins(c))
  {
    hide Wf, Fits, Source, Utf8, ParseLine, DupKey.FindDuplicateKey, FirstDuplicate, TextRepeats, Paired, HasDuplicate, HasTwins, ValueOf, Ws;
    TokenizerReads(before, c, after);
    ScannerIsExact(before, c, after);
    RepeatsExactly(c);
    if Paired(c) { PairedApart(c); }
  }

  function Surrogate(last: char): string { ['"', '\\', 'u', 'd', '8', '0', last, '"'] }

  lemma SurrogateDecodes(last: char)
    requires '0' <= last <= '9'
    ensures DupKey.Decode(Surrogate(last)) == Some([0xD800 + (last as int - '0' as int)])
  {
    var raw := Surrogate(last);
    assert Hex4(raw, 2) == Some(0xD800 + (last as int - '0' as int));
    assert DupKey.KeyElement(raw, 1) == Some(([0xD800 + (last as int - '0' as int)], 7));
    assert DupKey.KeyBody(raw, 7) == Some([]);
    var u := [0xD800 + (last as int - '0' as int)];
    assert u + [] == u;
    assert DupKey.KeyBody(raw, 1) == Some(u);
  }

  /** Two keys that are different lone surrogates: no duplicate for the scanner, one for the tokenizer. */
  lemma LoneSurrogatesPart()
    ensures var one := Atom("1");
            var c := Dict("", [Mem("", Surrogate('0'), "", "", one, ""), Mem("", Surrogate('1'), "", "", one, "")]);
            && Wf(c) && Fits(c, 0) && DupKey.FindDuplicateKey(Source(c)) == None && ParseLine(Utf8(Source(c))) == Err(DupKey)
  {
    hide Source, Utf8, ParseLine, DupKey.FindDuplicateKey, DupKey.Decode, Surrogate, HasDuplicate, NumberEnd;
    var one := Atom("1");
    var m, n := Mem("", Surrogate('0'), "", "", one, ""), Mem("", Surrogate('1'), "", "", one, "");
    var c := Dict("", [m, n]);
    SurrogateDecodes('0');
    SurrogateDecodes('1');
    OneIsAtom();
    LoneWf(m, n);
    assert "" + Source(c) + "" == Source(c);
    LoneText(m, n);
    TokenizerReads("", c, "");
    ScannerIsExact("", c, "");
  }

  lemma OneIsAtom()
    ensures IsAtom("1")
  {
    NumberGrammar.NumberExactly("1");
    assert NumberEnd("1", 0) == Some(1);
  }

  lemma LoneWf(m: Mem, n: Mem)
    requires m.before == m.colon == m.space == m.after == "" && n.before == n.colon == n.space == n.after == ""
    requires m.node == n.node == Atom("1") && IsAtom("1") && DupKey.Decode(m.key).Some? && DupKey.Decode(n.key).Some?
    ensures Wf(Dict("", [m, n])) && Fits(Dict("", [m, n]), 0)
  {
    hide IsAtom, DupKey.Decode;
    assert [m, n][1..] == [n] && [n][1..] == [];
    assert WfMem(m) && WfMem(n) && WfMems([n]);
    assert MemsFit([n], 1);
  }

  lemma LoneText(m: Mem, n: Mem)
    requires Wf(Dict("", [m, n])) && m.node == n.node == Atom("1")
    requires WfMem(m) && WfMem(n) && KeyOf(m) == [0xD800] && KeyOf(n) == [0xD801]
    ensures FirstDuplicate(Dict("", [m, n])) == None && TextRepeats(Dict("", [m, n]))
  {
    hide IsAtom, DupKey.Decode;
    assert [m, n][1..] == [n] && [n][1..] == [];
    assert WfMems([m, n]) && WfMems([n]);
    assert Runes([0xD800]) == [0xFFFD] + Runes([]) && Runes([0xD801]) == [0xFFFD] + Runes([]);
    var none: set<seq<int>> := {};
    assert FirstInMems([n], none + {KeyOf(m)}) == None;
    assert TextRepeatsInMems([n], none + {Runes(KeyOf(m))});
  }
}
