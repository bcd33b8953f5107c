/** The writer's canonicalizer (emitCanonical in src/audit/chain.ts) and the verifier's (verifier/canon.go)
    agree on every record JSON.stringify wrote. */
module Agreement {
  import opened Text
  import opened JsonLexer
  import opened JsonTokenizer
  import opened JsonPrinter
  import opened Cu1
  import opened Encoding

  // ----- values and how the writer serializes them

  /** A JSON value in memory. A number is known by the lexeme JSON.stringify gives it. */
  datatype Js = JNull | JBool(on: bool) | JNum(lexeme: string) | JStr(text: string) | JArr(items: seq<Js>) | JObj(members: seq<Pair>)

  datatype Pair = Pair(key: string, val: Js)

  function Word(on: bool): string { if on then "true" else "false" }

  /** JSON.stringify. */
  function Stringify(v: Js): string {
    match v
    case JNull => "null"
    case JBool(on) => Word(on)
    case JNum(lexeme) => lexeme
    case JStr(text) => Quote(text)
    case JArr(items) => "[" + StringifyItems(items)
    case JObj(members) => "{" + StringifyPairs(members)
  }

  function StringifyItems(items: seq<Js>): string {
    if items == [] then "]"
    else if |items| == 1 then Stringify(items[0]) + "]"
    else Stringify(items[0]) + "," + StringifyItems(items[1..])
  }

  function StringifyPairs(members: seq<Pair>): string {
    if members == [] then "}"
    else
      var text := Quote(members[0].key) + ":" + Stringify(members[0].val);
      if |members| == 1 then text + "}" else text + "," + StringifyPairs(members[1..])
  }

  /** A key and the canonical text of its value. */
  datatype Emitted = Emitted(key: string, text: string)

  function InsertEmitted(e: Emitted, sorted: seq<Emitted>): seq<Emitted> {
    if sorted != [] && Less(Utf16(sorted[0].key), Utf16(e.key)) then [sorted[0]] + InsertEmitted(e, sorted[1..])
    else [e] + sorted
  }

  /** Sorting by `<` on JavaScript strings, which compares code units. */
  function SortEmitted(es: seq<Emitted>): seq<Emitted> {
    if es == [] then [] else InsertEmitted(es[0], SortEmitted(es[1..]))
  }

  function JoinEmitted(es: seq<Emitted>): string {
    if es == [] then "}"
    else
      var text := Quote(es[0].key) + ":" + es[0].text;
      if |es| == 1 then text + "}" else text + "," + JoinEmitted(es[1..])
  }

  /** emitCanonical. */
  function EmitCanonical(v: Js): string {
    match v
    case JNull => "null"
    case JBool(on) => Word(on)
    case JNum(lexeme) => lexeme
    case JStr(text) => Quote(text)
    case JArr(items) => "[" + EmitItems(items)
    case JObj(members) => "{" + JoinEmitted(SortEmitted(EmitPairs(members)))
  }

  function EmitItems(items: seq<Js>): string {
    if items == [] then "]"
    else if |items| == 1 then EmitCanonical(items[0]) + "]"
    else EmitCanonical(items[0]) + "," + EmitItems(items[1..])
  }

  function EmitPairs(members: seq<Pair>): seq<Emitted> {
    if members == [] then [] else [Emitted(members[0].key, EmitCanonical(members[0].val))] + EmitPairs(members[1..])
  }

  // ----- what can be serialized so that the tokenizer takes it

  /** Number lexemes are numbers, keys are distinct, and nesting stays within the tokenizer's cap. */
  predicate WfJs(v: Js, depth: nat) {
    depth <= MAX_PARSE_DEPTH &&
    match v
    case JNum(lexeme) => IsNumber(lexeme)
    case JArr(items) => WfJsItems(items, depth + 1)
    case JObj(members) => WfPairs(members, depth + 1, {})
    case _ => true
  }

  predicate WfJsItems(items: seq<Js>, depth: nat) { items != [] ==> WfJs(items[0], depth) && WfJsItems(items[1..], depth) }

  predicate WfPairs(members: seq<Pair>, depth: nat, seen: set<string>) {
    members != [] ==>
      WfJs(members[0].val, depth) && members[0].key !in seen && WfPairs(members[1..], depth, seen + {members[0].key})
  }

  // ----- the lexeme tree the tokenizer should build

  function QuotedKey(key: string): string { Utf8(Quote(key)) }

  function Lexed(v: Js): Value {
    match v
    case JNull => Scalar(NullKind, "null", [])
    case JBool(on) => Scalar(BoolKind, Word(on), [])
    case JNum(lexeme) => Scalar(NumberKind, lexeme, [])
    case JStr(text) => Scalar(StringKind, Utf8(Quote(text)), Utf16(text))
    case JArr(items) => Arr(LexedItems(items))
    case JObj(members) => Obj(LexedPairs(members))
  }

  function LexedItems(items: seq<Js>): (r: seq<Value>)
    ensures |r| == |items|
  {
    if items == [] then [] else [Lexed(items[0])] + LexedItems(items[1..])
  }

  function LexedPairs(members: seq<Pair>): (r: seq<Member>)
    ensures |r| == |members|
  {
    if members == [] then []
    else [Member(QuotedKey(members[0].key), Utf16(members[0].key), Lexed(members[0].val))] + LexedPairs(members[1..])
  }

  lemma NumberAscii(raw: string)
    requires IsNumber(raw)
    ensures Ascii(raw)
  {
    hide IsNumber;
    forall k | 0 <= k < |raw|
      ensures raw[k] as int < 0x80
    {
      NumberPlain(raw, k);
    }
  }

  // ----- the bytes of a line are the printed lexeme tree

  lemma Utf8Three(a: string, b: string, c: string)
    ensures Utf8(a + b + c) == Utf8(a) + Utf8(b) + Utf8(c)
  {
    Utf8Concat(a + b, c);
    Utf8Concat(a, b);
  }

  lemma Marks()
    ensures Utf8("[") == "[" && Utf8("]") == "]" && Utf8("{") == "{" && Utf8("}") == "}"
    ensures Utf8(",") == "," && Utf8(":") == ":"
    ensures Utf8("null") == "null" && Utf8("true") == "true" && Utf8("false") == "false"
  {
    Utf8Ascii("[");
    Utf8Ascii("]");
    Utf8Ascii("{");
    Utf8Ascii("}");
    Utf8Ascii(",");
    Utf8Ascii(":");
    Utf8Ascii("null");
    Utf8Ascii("true");
    Utf8Ascii("false");
  }

  lemma {:induction false} LexedPrints(v: Js, depth: nat)
    requires WfJs(v, depth)
    ensures Print(Lexed(v)) == Utf8(Stringify(v))
    decreases v, 0
  {
    hide Quote, Utf8, NumberEnd;
    Marks();
    match v
    case JNum(lexeme) =>
      NumberAscii(lexeme);
      Utf8Ascii(lexeme);
    case JArr(items) =>
      LexedItemsPrint(items, depth + 1);
      Utf8Concat("[", StringifyItems(items));
    case JObj(members) =>
      LexedPairsPrint(members, depth + 1, {});
      Utf8Concat("{", StringifyPairs(members));
    case _ =>
  }

  lemma {:induction false} LexedItemsPrint(items: seq<Js>, depth: nat)
    requires WfJsItems(items, depth)
    ensures PrintItems(LexedItems(items)) == Utf8(StringifyItems(items))
    decreases items, 1
  {
    hide Utf8, WfJs;
    Marks();
    if items != [] {
      LexedPrints(items[0], depth);
      LexedItemsPrint(items[1..], depth);
      var a := Stringify(items[0]);
      Utf8Concat(a, "]");
      Utf8Three(a, ",", StringifyItems(items[1..]));
    }
  }

  lemma {:induction false} LexedPairsPrint(members: seq<Pair>, depth: nat, seen: set<string>)
    requires WfPairs(members, depth, seen)
    ensures PrintMembers(LexedPairs(members)) == Utf8(StringifyPairs(members))
    decreases members, 1
  {
    hide Utf8, Quote, WfJs;
    Marks();
    if members != [] {
      var p := members[0];
      LexedPrints(p.val, depth);
      LexedPairsPrint(members[1..], depth, seen + {p.key});
      Utf8Three(Quote(p.key), ":", Stringify(p.val));
      var text := Quote(p.key) + ":" + Stringify(p.val);
      Utf8Concat(text, "}");
      Utf8Three(text, ",", StringifyPairs(members[1..]));
    }
  }

  // ----- the lexeme tree is one the tokenizer can build

  lemma LexedScalar(v: Js)
    requires !v.JArr? && !v.JObj? && (v.JNum? ==> IsNumber(v.lexeme))
    ensures var x := Lexed(v); x.Scalar? && x.raw != "" && ParseScalar(x.raw, 0) == Ok(x, |x.raw|)
  {
    hide NumberEnd, ParseString, Quote, Utf8;
    var raw := Lexed(v).raw;
    assert raw[0..|raw|] == raw;
    if v.JStr? {
      ReadsQuoted(v.text);
      StringStarts(v.text);
    }
  }

  lemma StringStarts(s: string)
    ensures Utf8(Quote(s)) != "" && Utf8(Quote(s))[0] == '"'
  {
    hide Text.Body;
    assert Quote(s) == "\"" + (Text.Body(s) + "\"");
    Utf8Concat("\"", Text.Body(s) + "\"");
    Utf8Ascii("\"");
  }

  /** `units` holds no key beyond those in `seen`. */
  ghost predicate Covers(seen: set<string>, units: set<seq<int>>) { forall s: string | Points(s) in units :: s in seen }

  lemma {:induction false} LexedWf(v: Js, depth: nat)
    requires WfJs(v, depth)
    ensures Wf(Lexed(v), depth)
    decreases v, 0
  {
    hide ParseScalar, IsNumber;
    match v
    case JArr(items) => LexedItemsWf(items, depth + 1);
    case JObj(members) => LexedPairsWf(members, depth + 1, {}, {});
    case _ => LexedScalar(v);
  }

  lemma {:induction false} LexedItemsWf(items: seq<Js>, depth: nat)
    requires WfJsItems(items, depth)
    ensures WfItems(LexedItems(items), depth)
    decreases items, 1
  {
    hide Wf, WfJs;
    if items != [] {
      LexedWf(items[0], depth);
      LexedItemsWf(items[1..], depth);
    }
  }

  lemma {:induction false} LexedPairsWf(members: seq<Pair>, depth: nat, seen: set<string>, units: set<seq<int>>)
    requires WfPairs(members, depth, seen) && Covers(seen, units)
    ensures WfMembers(LexedPairs(members), depth, units)
    decreases members, 1
  {
    hide Wf, WfJs, ParseString, Quote, Utf8;
    if members != [] {
      var k := members[0].key;
      LexedWf(members[0].val, depth);
      ReadsQuoted(k);
      RunesOfUnits(k);
      CoversOneMore(seen, units, k);
      LexedPairsWf(members[1..], depth, seen + {k}, units + {Points(k)});
    }
  }

  lemma CoversOneMore(seen: set<string>, units: set<seq<int>>, k: string)
    requires Covers(seen, units)
    ensures Covers(seen + {k}, units + {Points(k)})
  {
    forall s: string | Points(s) in units + {Points(k)}
      ensures s in seen + {k}
    {
      if Points(s) == Points(k) {
        RunesOfUnits(s);
        RunesOfUnits(k);
        KeysDistinct(s, k);
      }
    }
  }

  // ----- the two canonical texts

  /** Sorted keys and texts on one side, sorted members on the other. */
  predicate Matches(es: seq<Emitted>, ms: seq<Member>) {
    if es == [] then ms == []
    else ms != [] && MatchesOne(es[0], ms[0]) && Matches(es[1..], ms[1..])
  }

  predicate MatchesOne(e: Emitted, m: Member) {
    m.keyRaw == QuotedKey(e.key) && m.units == Utf16(e.key) && Print(m.val) == Utf8(e.text)
  }

  lemma {:induction false} InsertMatches(e: Emitted, m: Member, es: seq<Emitted>, ms: seq<Member>)
    requires MatchesOne(e, m) && Matches(es, ms)
    ensures Matches(InsertEmitted(e, es), Insert(m, ms))
    decreases es
  {
    if es != [] && Less(Utf16(es[0].key), Utf16(e.key)) {
      InsertMatches(e, m, es[1..], ms[1..]);
      assert InsertEmitted(e, es)[1..] == InsertEmitted(e, es[1..]) && Insert(m, ms)[1..] == Insert(m, ms[1..]);
    } else {
      assert ([e] + es)[1..] == es && ([m] + ms)[1..] == ms;
    }
  }

  lemma {:induction false} SortMatches(es: seq<Emitted>, ms: seq<Member>)
    requires Matches(es, ms)
    ensures Matches(SortEmitted(es), SortMembers(ms))
    decreases es
  {
    hide MatchesOne;
    if es != [] {
      SortMatches(es[1..], ms[1..]);
      InsertMatches(es[0], ms[0], SortEmitted(es[1..]), SortMembers(ms[1..]));
    }
  }

  lemma {:induction false} JoinMatches(es: seq<Emitted>, ms: seq<Member>)
    requires Matches(es, ms)
    ensures Utf8(JoinEmitted(es)) == PrintMembers(ms)
    decreases es
  {
    hide Utf8, Quote;
    Marks();
    if es != [] {
      JoinMatches(es[1..], ms[1..]);
      MatchesLength(es, ms);
      var text := Quote(es[0].key) + ":" + es[0].text;
      Utf8Three(Quote(es[0].key), ":", es[0].text);
      Utf8Concat(text, "}");
      Utf8Three(text, ",", JoinEmitted(es[1..]));
    }
  }

  lemma {:induction false} MatchesLength(es: seq<Emitted>, ms: seq<Member>)
    requires Matches(es, ms)
    ensures |es| == |ms|
    decreases es
  {
    hide MatchesOne;
    if es != [] { MatchesLength(es[1..], ms[1..]); }
  }

  lemma {:induction false} EmitsSorted(v: Js, depth: nat)
    requires WfJs(v, depth)
    ensures Utf8(EmitCanonical(v)) == Print(SortDeep(Lexed(v)))
    decreases v, 0
  {
    hide Quote, Utf8, NumberEnd;
    Marks();
    match v
    case JNum(lexeme) =>
      NumberAscii(lexeme);
      Utf8Ascii(lexeme);
    case JArr(items) =>
      EmitsItems(items, depth + 1);
      Utf8Concat("[", EmitItems(items));
    case JObj(members) =>
      EmitsPairs(members, depth + 1, {});
      SortMatches(EmitPairs(members), SortValues(LexedPairs(members)));
      JoinMatches(SortEmitted(EmitPairs(members)), SortMembers(SortValues(LexedPairs(members))));
      Utf8Concat("{", JoinEmitted(SortEmitted(EmitPairs(members))));
    case _ =>
  }

  lemma {:induction false} EmitsItems(items: seq<Js>, depth: nat)
    requires WfJsItems(items, depth)
    ensures Utf8(EmitItems(items)) == PrintItems(SortItems(LexedItems(items)))
    decreases items, 1
  {
    hide Utf8, WfJs;
    Marks();
    if items != [] {
      EmitsSorted(items[0], depth);
      EmitsItems(items[1..], depth);
      var a := EmitCanonical(items[0]);
      Utf8Concat(a, "]");
      Utf8Three(a, ",", EmitItems(items[1..]));
    }
  }

  lemma {:induction false} EmitsPairs(members: seq<Pair>, depth: nat, seen: set<string>)
    requires WfPairs(members, depth, seen)
    ensures Matches(EmitPairs(members), SortValues(LexedPairs(members)))
    decreases members, 1
  {
    hide Utf8, Quote, WfJs;
    if members != [] {
      EmitsSorted(members[0].val, depth);
      EmitsPairs(members[1..], depth, seen + {members[0].key});
      assert EmitPairs(members)[1..] == EmitPairs(members[1..]);
      assert LexedPairs(members)[1..] == LexedPairs(members[1..]);
    }
  }

  /** The line JSON.stringify wrote parses to the expected lexeme tree, and the canonical text the verifier
      makes of it is the one the writer hashed. */
  lemma CanonicalizersAgree(v: Js)
    requires WfJs(v, 0)
    ensures var line := Utf8(Stringify(v));
            && ParseLine(line) == Ok(Lexed(v), |line|)
            && Canon(ParseLine(line).value) == Utf8(EmitCanonical(v))
  {
    hide Stringify, Lexed, EmitCanonical, Utf8, Wf, Print;
    LexedPrints(v, 0);
    LexedWf(v, 0);
    PrintRoundTrip(Lexed(v));
    EmitsSorted(v, 0);
    CanonIsPrint(Lexed(v));
  }
}
