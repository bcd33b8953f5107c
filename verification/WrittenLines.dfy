/** What JSON.stringify writes, seen by the duplicate-key scanner: a well-formed line without duplicates, and so
    is reported neither whole nor cut. */
module WrittenLines {
  import opened Wrappers
  import opened Text
  import opened JsonLexer
  import opened Encoding
  import opened Agreement
  import opened Slices
  import DupKey
  import NumberGrammar
  import DupKeyExact
  import DupKeyBegun

  // ----- a quoted text decodes to its code units

  lemma EscapedElement(raw: string, k: nat, c: char)
    requires At(raw, k, Escaped(c))
    ensures k < |raw| && raw[k] != '"' && DupKey.KeyElement(raw, k) == Some((RuneUnits(c as int), k + |Escaped(c)|))
  {
    hide At, Hex4;
    EscapedAscii(c);
    AtIndex(raw, k, Escaped(c), 0);
    if |Escaped(c)| > 1 {
      AtIndex(raw, k, Escaped(c), 1);
      if |Escaped(c)| == 6 { EscapedHex(raw, k, c); }
    }
  }

  lemma EscapedHex(raw: string, k: nat, c: char)
    requires At(raw, k, Escaped(c)) && |Escaped(c)| == 6
    ensures Hex4(raw, k + 1) == Some(c as int)
  {
    hide At;
    var e := Escaped(c);
    HexDigitValue(c as int / 16);
    HexDigitValue(c as int % 16);
    HexDigitValue(0);
    AtIndex(raw, k, e, 2);
    AtIndex(raw, k, e, 3);
    AtIndex(raw, k, e, 4);
    AtIndex(raw, k, e, 5);
  }

  lemma {:induction false} BodyDecodes(raw: string, k: nat, s: string)
    requires At(raw, k, Text.Body(s) + "\"") && k + |Text.Body(s)| + 1 == |raw|
    ensures DupKey.KeyBody(raw, k) == Some(Utf16(s))
    decreases |s|
  {
    hide At, Escaped, RuneUnits, DupKey.KeyElement;
    if s == "" {
      AtIndex(raw, k, Text.Body(s) + "\"", 0);
    } else {
      var e, rest := Escaped(s[0]), Text.Body(s[1..]) + "\"";
      assert Text.Body(s) + "\"" == e + rest;
      AtConcat(raw, k, e, rest);
      EscapedElement(raw, k, s[0]);
      BodyDecodes(raw, k + |e|, s[1..]);
    }
  }

  lemma QuoteDecodes(s: string)
    ensures DupKey.Decode(Quote(s)) == Some(Utf16(s))
  {
    hide Text.Body;
    var raw := Quote(s);
    assert raw == "\"" + (Text.Body(s) + "\"");
    assert raw[0..|raw|] == raw;
    AtConcat(raw, 0, "\"", Text.Body(s) + "\"");
    BodyDecodes(raw, 1, s);
  }

  // ----- the tree of a serialized value

  function NodeOf(v: Js): DupKeyExact.Node {
    match v
    case JNull => DupKeyExact.Atom("null")
    case JBool(on) => DupKeyExact.Atom(Word(on))
    case JNum(lexeme) => DupKeyExact.Atom(lexeme)
    case JStr(text) => DupKeyExact.Str(Quote(text))
    case JArr(items) => DupKeyExact.List("", ElemsOf(items))
    case JObj(members) => DupKeyExact.Dict("", MemsOf(members))
  }

  function ElemsOf(items: seq<Js>): (r: seq<DupKeyExact.Elem>)
    ensures |r| == |items|
  {
    if items == [] then [] else [DupKeyExact.Elem("", NodeOf(items[0]), "")] + ElemsOf(items[1..])
  }

  function MemsOf(members: seq<Pair>): (r: seq<DupKeyExact.Mem>)
    ensures |r| == |members|
  {
    if members == [] then []
    else [DupKeyExact.Mem("", Quote(members[0].key), "", "", NodeOf(members[0].val), "")] + MemsOf(members[1..])
  }

  lemma {:induction false} NodeText(v: Js)
    ensures DupKeyExact.Source(NodeOf(v)) == Stringify(v)
    decreases v, 1
  {
    hide Quote;
    match v
    case JArr(items) => if items != [] { ElemsText(items); }
    case JObj(members) => if members != [] { MemsText(members); }
    case _ =>
  }

  lemma {:induction false} ElemsText(items: seq<Js>)
    requires items != []
    ensures DupKeyExact.ElemsSource(ElemsOf(items)) == StringifyItems(items)
    decreases items, 0
  {
    hide Stringify, DupKeyExact.Source, NodeOf;
    NodeText(items[0]);
    var es := ElemsOf(items);
    assert es[1..] == ElemsOf(items[1..]);
    var text := Stringify(items[0]);
    assert "" + DupKeyExact.Source(es[0].node) == text;
    if |items| == 1 {
      assert "" + "]" == "]";
    } else {
      ElemsText(items[1..]);
      assert text + "," + StringifyItems(items[1..]) == text + ("" + ("," + StringifyItems(items[1..])));
    }
  }

  lemma {:induction false} MemsText(members: seq<Pair>)
    requires members != []
    ensures DupKeyExact.MemsSource(MemsOf(members)) == StringifyPairs(members)
    decreases members, 0
  {
    hide Stringify, DupKeyExact.Source, NodeOf, Quote;
    NodeText(members[0].val);
    var ms := MemsOf(members);
    assert ms[1..] == MemsOf(members[1..]);
    DupKeyExact.MemsSplit(ms);
    var key, text := Quote(members[0].key), Stringify(members[0].val);
    if |members| == 1 {
      PlainMember(key, text, "}");
    } else {
      MemsText(members[1..]);
      PlainMember(key, text, "," + StringifyPairs(members[1..]));
      assert key + ":" + text + ("," + StringifyPairs(members[1..])) == key + ":" + text + "," + StringifyPairs(members[1..]);
    }
  }

  lemma PlainMember(key: string, text: string, rest: string)
    ensures "" + (key + ("" + (":" + (("" + text) + ("" + rest))))) == key + ":" + text + rest
  {
  }

  lemma {:induction false} NodeWf(v: Js, depth: nat)
    requires WfJs(v, depth)
    ensures DupKeyExact.Wf(NodeOf(v))
    decreases v, 1
  {
    hide DupKey.Decode, Quote;
    match v
    case JStr(text) => QuoteDecodes(text);
    case JArr(items) => ElemsWf(items, depth + 1);
    case JObj(members) => MemsWf(members, depth + 1, {});
    case JNum(lexeme) => NumberGrammar.NumberExactly(lexeme);
    case _ =>
  }

  lemma {:induction false} ElemsWf(items: seq<Js>, depth: nat)
    requires WfJsItems(items, depth)
    ensures DupKeyExact.WfElems(ElemsOf(items))
    decreases items, 0
  {
    hide WfJs, DupKeyExact.Wf, NodeOf;
    if items != [] {
      NodeWf(items[0], depth);
      ElemsWf(items[1..], depth);
      assert ElemsOf(items)[1..] == ElemsOf(items[1..]);
    }
  }

  lemma {:induction false} MemsWf(members: seq<Pair>, depth: nat, seen: set<string>)
    requires WfPairs(members, depth, seen)
    ensures DupKeyExact.WfMems(MemsOf(members))
    decreases members, 0
  {
    hide WfJs, DupKeyExact.Wf, NodeOf, DupKey.Decode, Quote;
    if members != [] {
      NodeWf(members[0].val, depth);
      QuoteDecodes(members[0].key);
      MemsWf(members[1..], depth, seen + {members[0].key});
      assert MemsOf(members)[1..] == MemsOf(members[1..]);
    }
  }

  // ----- it has no duplicate

  /** The code units seen are those of texts seen. */
  ghost predicate UnitsOf(units: set<seq<int>>, seen: set<string>) { forall u | u in units :: exists k :: k in seen && Utf16(k) == u }

  lemma UnitsDiffer(a: string, b: string)
    ensures Utf16(a) == Utf16(b) ==> a == b
  {
    hide Utf16, Runes;
    KeysDistinct(a, b);
  }

  lemma OneMoreSeen(units: set<seq<int>>, seen: set<string>, key: string)
    requires UnitsOf(units, seen) && key !in seen
    ensures Utf16(key) !in units && UnitsOf(units + {Utf16(key)}, seen + {key})
  {
    hide Utf16;
    if Utf16(key) in units {
      var k :| k in seen && Utf16(k) == Utf16(key);
      UnitsDiffer(k, key);
    }
    forall u | u in units + {Utf16(key)}
      ensures exists k :: k in seen + {key} && Utf16(k) == u
    {
      if u in units {
        var k :| k in seen && Utf16(k) == u;
        assert k in seen + {key};
      } else {
        assert key in seen + {key};
      }
    }
  }

  lemma {:induction false} NoneFirst(v: Js, depth: nat)
    requires WfJs(v, depth)
    ensures DupKeyExact.Wf(NodeOf(v)) && DupKeyExact.FirstDuplicate(NodeOf(v)) == None
    decreases v, 1
  {
    hide DupKeyExact.Wf;
    NodeWf(v, depth);
    match v
    case JArr(items) => NoneInElems(items, depth + 1);
    case JObj(members) => NoneInMems(members, depth + 1, {}, {});
    case _ =>
  }

  lemma {:induction false} NoneInElems(items: seq<Js>, depth: nat)
    requires WfJsItems(items, depth)
    ensures DupKeyExact.WfElems(ElemsOf(items)) && DupKeyExact.FirstInElems(ElemsOf(items)) == None
    decreases items, 0
  {
    hide WfJs, DupKeyExact.Wf, NodeOf, DupKeyExact.FirstDuplicate;
    ElemsWf(items, depth);
    if items != [] {
      NoneFirst(items[0], depth);
      NoneInElems(items[1..], depth);
      assert ElemsOf(items)[1..] == ElemsOf(items[1..]);
    }
  }

  lemma {:induction false} NoneInMems(members: seq<Pair>, depth: nat, seen: set<string>, units: set<seq<int>>)
    requires WfPairs(members, depth, seen) && UnitsOf(units, seen)
    ensures DupKeyExact.WfMems(MemsOf(members)) && DupKeyExact.FirstInMems(MemsOf(members), units) == None
    decreases members, 0
  {
    hide WfJs, DupKeyExact.Wf, NodeOf, DupKeyExact.FirstDuplicate, DupKey.Decode, Quote, UnitsOf;
    MemsWf(members, depth, seen);
    if members != [] {
      var key := members[0].key;
      NoneFirst(members[0].val, depth);
      QuoteDecodes(key);
      OneMoreSeen(units, seen, key);
      NoneInMems(members[1..], depth, seen + {key}, units + {Utf16(key)});
      assert MemsOf(members)[1..] == MemsOf(members[1..]);
    }
  }

  /** A line JSON.stringify wrote has no duplicate to report. */
  lemma WrittenUnreported(v: Js)
    requires WfJs(v, 0)
    ensures DupKey.FindDuplicateKey(Stringify(v)) == None
  {
    hide DupKeyExact.Wf, DupKeyExact.FirstDuplicate, DupKeyExact.HasDuplicate, DupKey.FindDuplicateKey, Stringify, DupKeyExact.Source, NodeOf;
    NoneFirst(v, 0);
    NodeText(v);
    DupKeyExact.ScannerIsExact("", NodeOf(v), "");
    assert "" + DupKeyExact.Source(NodeOf(v)) + "" == Stringify(v);
  }

  /** Nor has any beginning of a line that has none: what begins the cut line begins the whole one. */
  lemma CutUnreported(line: string, k: nat)
    requires k <= |line| && DupKey.FindDuplicateKey(line) == None
    ensures DupKey.FindDuplicateKey(line[..k]) == None
  {
    hide DupKey.FindDuplicateKey, DupKeyBegun.Repeats, DupKeyBegun.BegunText;
    DupKeyBegun.ReportedExactly(line, []);
    DupKeyBegun.ReportedExactly(line[..k], []);
    forall pad, b | DupKeyBegun.Begins(line[..k], pad, b)
      ensures DupKeyBegun.Begins(line, pad, b)
    {
      assert line[..k] <= line;
    }
  }
}
