/** A concrete record format: events serialized by JSON.stringify, one per line, and read back by the
    tokenizer. It is faithful, so what is proved of files in any faithful format holds of these. */
module JsonRecords {
  import opened Wrappers
  import opened Text
  import opened JsonLexer
  import opened JsonTokenizer
  import opened JsonPrinter
  import opened Cu1
  import opened Encoding
  import opened Material
  import opened Agreement
  import Chain
  import RecordFiles

  // ----- integers

  function NumberOf(digits: string): int {
    if digits == "" then 0 else NumberOf(digits[..|digits| - 1]) * 10 + (digits[|digits| - 1] as int - '0' as int)
  }

  /** The value of an integer lexeme. */
  function IntegerOf(raw: string): Option<int> {
    if AllDigits(raw) then Some(NumberOf(raw))
    else if raw != "" && raw[0] == '-' && AllDigits(raw[1..]) then Some(-NumberOf(raw[1..]))
    else None
  }

  lemma {:induction false} NumberOfDecimal(n: nat)
    ensures NumberOf(Decimal(n)) == n
  {
    var s := Decimal(n);
    if n < 10 {
      assert s[..0] == "";
    } else {
      NumberOfDecimal(n / 10);
      assert s[..|s| - 1] == Decimal(n / 10);
    }
  }

  lemma IntegerReads(i: int)
    ensures IntegerOf(Integer(i)) == Some(i)
  {
    var n := if i < 0 then -i else i;
    NumberOfDecimal(n);
    DecimalDigits(n);
    if i < 0 {
      assert Integer(i)[1..] == Decimal(n);
      assert !IsDigit(Integer(i)[0]);
    }
  }

  lemma {:induction false} DecimalHead(n: nat)
    ensures n > 0 ==> Decimal(n)[0] != '0'
  {
    if n >= 10 { DecimalHead(n / 10); }
  }

  lemma {:induction false} AllDigitsEnd(s: string, i: nat)
    requires AllDigits(s) && i <= |s|
    ensures DigitsEnd(s, i) == |s|
    decreases |s| - i
  {
    if i < |s| { AllDigitsEnd(s, i + 1); }
  }

  lemma SignedDigitsEnd(s: string)
    requires s != "" && s[0] == '-' && AllDigits(s[1..])
    ensures forall i | 1 <= i <= |s| :: DigitsEnd(s, i) == |s|
  {
    forall i | 1 <= i <= |s|
      ensures DigitsEnd(s, i) == |s|
    {
      DigitsToEnd(s, i);
    }
  }

  lemma {:induction false} DigitsToEnd(s: string, i: nat)
    requires 1 <= i <= |s| && AllDigits(s[1..])
    ensures DigitsEnd(s, i) == |s|
    decreases |s| - i
  {
    if i < |s| {
      assert s[i] == s[1..][i - 1];
      DigitsToEnd(s, i + 1);
    }
  }

  /** An integer's decimal text is a JSON number. */
  lemma IntegerIsNumber(i: int)
    ensures IsNumber(Integer(i))
  {
    var n := if i < 0 then -i else i;
    var s := Integer(i);
    DecimalDigits(n);
    DecimalHead(n);
    if i < 0 {
      assert s[1..] == Decimal(n) && s[1] == Decimal(n)[0];
      SignedDigitsEnd(s);
    } else {
      AllDigitsEnd(s, 1);
      if n == 0 { assert s == "0"; }
    }
  }

  // ----- text of a decoded string

  predicate IsScalarValue(r: int) { 0 <= r < 0xD800 || 0xE000 <= r < 0x110000 }

  function CharOf(r: int): char { if IsScalarValue(r) then r as char else 0xFFFD as char }

  function TextOf(units: seq<int>): string {
    var rs := Runes(units);
    seq(|rs|, i requires 0 <= i < |rs| => CharOf(rs[i]))
  }

  lemma TextReads(s: string)
    ensures TextOf(Utf16(s)) == s
  {
    RunesOfUnits(s);
    assert |TextOf(Utf16(s))| == |s|;
    forall i | 0 <= i < |s|
      ensures TextOf(Utf16(s))[i] == s[i]
    {
      assert Runes(Utf16(s))[i] == s[i] as int;
    }
  }

  // ----- members by name

  function Field(members: seq<Member>, name: string): Option<Value> {
    if members == [] then None
    else if Key(members[0]) == Points(name) then Some(members[0].val)
    else Field(members[1..], name)
  }

  function PairField(ms: seq<Pair>, name: string): Option<Js> {
    if ms == [] then None else if ms[0].key == name then Some(ms[0].val) else PairField(ms[1..], name)
  }

  lemma PointsInjective(a: string, b: string)
    ensures Points(a) == Points(b) ==> a == b
  {
    RunesOfUnits(a);
    RunesOfUnits(b);
    KeysDistinct(a, b);
  }

  lemma {:induction false} FieldOfPairs(ms: seq<Pair>, name: string)
    ensures Field(LexedPairs(ms), name) == match PairField(ms, name) case None => None case Some(v) => Some(Lexed(v))
    decreases ms
  {
    hide Lexed, Points;
    if ms != [] {
      RunesOfUnits(ms[0].key);
      PointsInjective(ms[0].key, name);
      FieldOfPairs(ms[1..], name);
    }
  }

  // ----- the integrity block

  const NAME := "integrity"

  function LinkJs(previousHash: Option<string>): Js { match previousHash case None => JNull case Some(h) => JStr(h) }

  function BlockMembers(i: Chain.Integrity): seq<Pair> {
    [Pair("chainIndex", JNum(Integer(i.chainIndex))), Pair("hash", JStr(i.hash)), Pair("previousHash", LinkJs(i.previousHash)),
     Pair("algorithm", JStr("sha256")), Pair("status", JStr("chained-local")), Pair("canon", JStr("cu1"))]
  }

  function BlockJs(i: Chain.Integrity): Js { JObj(BlockMembers(i)) }

  function StringOf(v: Option<Value>): Option<string> {
    if v.Some? && v.value.Scalar? && v.value.kind == StringKind then Some(TextOf(v.value.units)) else None
  }

  /** extractIntegrity, as far as the chain needs it. */
  function ExtractIntegrity(members: seq<Member>): Option<Chain.Integrity> {
    var block := Field(members, NAME);
    if block.None? || !block.value.Obj? then None
    else
      var ms := block.value.members;
      var index, hash, link := Field(ms, "chainIndex"), StringOf(Field(ms, "hash")), Field(ms, "previousHash");
      if index.None? || !index.value.Scalar? || index.value.kind != NumberKind || IntegerOf(index.value.raw).None? then None
      else if hash.None? || link.None? || !link.value.Scalar? then None
      else if link.value.kind == NullKind then Some(Chain.Integrity(IntegerOf(index.value.raw).value, hash.value, None))
      else if link.value.kind == StringKind then
        Some(Chain.Integrity(IntegerOf(index.value.raw).value, hash.value, Some(TextOf(link.value.units))))
      else None
  }

  /** A record has a block exactly when its integrity member is an object with an integer index, a string hash and a link
      that is null or a string; then the block is what they say. */
  lemma BlockExactly(members: seq<Member>, i: Chain.Integrity)
    ensures ExtractIntegrity(members) == Some(i)
       <==> match Field(members, "integrity")
            case Some(Obj(ms)) =>
              && (match Field(ms, "chainIndex")
                  case Some(Scalar(kind, raw, _)) => kind == NumberKind && IntegerOf(raw) == Some(i.chainIndex)
                  case _ => false)
              && StringOf(Field(ms, "hash")) == Some(i.hash)
              && (match Field(ms, "previousHash")
                  case Some(Scalar(kind, _, units)) =>
                    if kind == StringKind then i.previousHash == Some(TextOf(units)) else kind == NullKind && i.previousHash == None
                  case _ => false)
            case _ => false
  {
    hide IntegerOf, TextOf, Field;
  }

  lemma BlockFields(i: Chain.Integrity)
    ensures var ms := BlockMembers(i);
            && PairField(ms, "chainIndex") == Some(JNum(Integer(i.chainIndex)))
            && PairField(ms, "hash") == Some(JStr(i.hash))
            && PairField(ms, "previousHash") == Some(LinkJs(i.previousHash))
  {
    var ms := BlockMembers(i);
    assert ms[1..][0] == ms[1] && ms[1..][1..][0] == ms[2];
    assert PairField(ms, "hash") == PairField(ms[1..], "hash");
    assert PairField(ms, "previousHash") == PairField(ms[1..], "previousHash") == PairField(ms[1..][1..], "previousHash");
  }

  /** The block reads back as the integrity it was written from. */
  lemma BlockReads(i: Chain.Integrity, members: seq<Member>)
    requires Field(members, NAME) == Some(Lexed(BlockJs(i)))
    ensures ExtractIntegrity(members) == Some(i)
  {
    hide IntegerOf, Integer, TextOf, Field, BlockMembers, LexedPairs;
    var ms := BlockMembers(i);
    BlockFields(i);
    FieldOfPairs(ms, "chainIndex");
    FieldOfPairs(ms, "hash");
    FieldOfPairs(ms, "previousHash");
    IntegerReads(i.chainIndex);
    TextReads(i.hash);
    if i.previousHash.Some? { TextReads(i.previousHash.value); }
  }

  lemma WfPairsCons(m: Pair, rest: seq<Pair>, depth: nat, seen: set<string>)
    requires WfJs(m.val, depth) && m.key !in seen && WfPairs(rest, depth, seen + {m.key})
    ensures WfPairs([m] + rest, depth, seen)
  {
    hide WfJs;
    assert ([m] + rest)[1..] == rest;
  }

  lemma BlockWf(i: Chain.Integrity)
    ensures WfJs(BlockJs(i), 1)
  {
    hide Integer, IsNumber, WfPairs;
    IntegerIsNumber(i.chainIndex);
    var ms := BlockMembers(i);
    var s1 := {"chainIndex"};
    var s2 := s1 + {"hash"};
    var s3 := s2 + {"previousHash"};
    var s4 := s3 + {"algorithm"};
    var s5 := s4 + {"status"};
    assert WfPairs([], 2, s5 + {"canon"}) by { NoPairs(2, s5 + {"canon"}); }
    WfPairsCons(ms[5], [], 2, s5);
    WfPairsCons(ms[4], [ms[5]] + [], 2, s4);
    WfPairsCons(ms[3], [ms[4]] + ([ms[5]] + []), 2, s3);
    WfPairsCons(ms[2], [ms[3]] + ([ms[4]] + ([ms[5]] + [])), 2, s2);
    WfPairsCons(ms[1], [ms[2]] + ([ms[3]] + ([ms[4]] + ([ms[5]] + []))), 2, s1);
    assert {} + {"chainIndex"} == s1;
    WfPairsCons(ms[0], [ms[1]] + ([ms[2]] + ([ms[3]] + ([ms[4]] + ([ms[5]] + [])))), 2, {});
    assert ms == [ms[0]] + ([ms[1]] + ([ms[2]] + ([ms[3]] + ([ms[4]] + ([ms[5]] + [])))));
  }

  lemma NoPairs(depth: nat, seen: set<string>)
    ensures WfPairs([], depth, seen)
  {
  }

  // ----- records

  /** The members of an event before its integrity block is added. */
  type Body = ms: seq<Pair> | WfPairs(ms, 1, {NAME}) witness []

  function RecordJs(p: Body, i: Chain.Integrity): Js { JObj(p + [Pair(NAME, BlockJs(i))]) }

  lemma {:induction false} WfPairsAppend(ms: seq<Pair>, depth: nat, seen: set<string>, last: Pair)
    requires WfPairs(ms, depth, seen + {last.key}) && WfJs(last.val, depth) && last.key !in seen
    ensures WfPairs(ms + [last], depth, seen)
    decreases ms
  {
    hide WfJs;
    if ms == [] {
      assert ms + [last] == [last];
    } else {
      assert (ms + [last])[1..] == ms[1..] + [last];
      assert seen + {last.key} + {ms[0].key} == seen + {ms[0].key} + {last.key};
      WfPairsAppend(ms[1..], depth, seen + {ms[0].key}, last);
    }
  }

  lemma {:induction false} FewerKeys(ms: seq<Pair>, depth: nat, seen: set<string>, fewer: set<string>)
    requires WfPairs(ms, depth, seen) && fewer <= seen
    ensures WfPairs(ms, depth, fewer)
    decreases ms
  {
    hide WfJs;
    if ms != [] { FewerKeys(ms[1..], depth, seen + {ms[0].key}, fewer + {ms[0].key}); }
  }

  lemma RecordWf(p: Body, i: Chain.Integrity)
    ensures WfJs(RecordJs(p, i), 0) && WfJs(JObj(p), 0)
  {
    hide BlockJs;
    BlockWf(i);
    assert {} + {NAME} == {NAME};
    WfPairsAppend(p, 1, {}, Pair(NAME, BlockJs(i)));
    FewerKeys(p, 1, {NAME}, {});
  }

  lemma IntegrityPoints()
    ensures Points(NAME) == INTEGRITY
  {
  }

  lemma {:induction false} StripsBlock(ms: seq<Pair>, seen: set<string>, block: Js)
    requires WfPairs(ms, 1, seen) && NAME in seen
    ensures Stripped(LexedPairs(ms + [Pair(NAME, block)])) == LexedPairs(ms)
    decreases ms
  {
    hide Lexed, WfJs, Key, Stripped, Utf16;
    var full := ms + [Pair(NAME, block)];
    if ms == [] {
      assert full == [Pair(NAME, block)] && full[1..] == [];
      StripsMember(Pair(NAME, block), []);
      NothingStripped();
    } else {
      assert full[1..] == ms[1..] + [Pair(NAME, block)] && full[0] == ms[0];
      StripsMember(ms[0], LexedPairs(full[1..]));
      StripsBlock(ms[1..], seen + {ms[0].key}, block);
    }
  }

  lemma NothingStripped()
    ensures Stripped([]) == []
  {
  }

  function LexedMember(p: Pair): Member { Member(QuotedKey(p.key), Utf16(p.key), Lexed(p.val)) }

  /** Only a member named integrity is dropped. */
  lemma StripsMember(p: Pair, rest: seq<Member>)
    ensures Stripped([LexedMember(p)] + rest) == (if p.key == NAME then [] else [LexedMember(p)]) + Stripped(rest)
  {
    hide Lexed, Utf16, QuotedKey;
    IntegrityPoints();
    RunesOfUnits(p.key);
    PointsInjective(p.key, NAME);
    assert ([LexedMember(p)] + rest)[1..] == rest;
  }

  lemma {:induction false} FindsBlock(ms: seq<Pair>, seen: set<string>, block: Js)
    requires WfPairs(ms, 1, seen) && NAME in seen
    ensures PairField(ms + [Pair(NAME, block)], NAME) == Some(block)
    decreases ms
  {
    hide WfJs;
    var full := ms + [Pair(NAME, block)];
    if ms == [] {
      assert full == [Pair(NAME, block)];
    } else {
      assert full[1..] == ms[1..] + [Pair(NAME, block)] && full[0] == ms[0];
      FindsBlock(ms[1..], seen + {ms[0].key}, block);
    }
  }

  // ----- the format

  function Render(p: Body, i: Chain.Integrity): string { Utf8(Stringify(RecordJs(p, i))) }

  function CanonOf(p: Body): string { Utf8(EmitCanonical(JObj(p))) }

  function ReadLine(line: string): Chain.Line {
    match ParseLine(line)
    case Err(DupKey) => Chain.Duplicate
    case Err(Syntax) => Chain.NotJson
    case Ok(v, _) =>
      if !v.Obj? || ExtractIntegrity(v.members).None? then Chain.NoIntegrity
      else Chain.Record(Chain.Event(Canon(Obj(Stripped(v.members))), ExtractIntegrity(v.members).value))
  }

  function ResumeLine(line: string): Option<Chain.ChainState> {
    match ReadLine(line) case Record(e) => Some(Chain.After(e)) case _ => None
  }

  const GAP_ACTION := "audit:chain-gap"

  /** A stated count; anything else counts as none. */
  function Stated(count: Option<string>): nat {
    if count.Some? && AllDigits(count.value) && NumberOf(count.value) >= 0 then NumberOf(count.value) else 0
  }

  function DeclaredIn(members: seq<Member>): Option<nat> {
    if StringOf(Field(members, "action")) != Some(GAP_ACTION) then None
    else
      match Field(members, "metadata")
      case Some(Obj(ms)) => Some(Stated(StringOf(Field(ms, "droppedRecords"))))
      case _ => Some(0)
  }

  /** The drop count a canonical payload declares, when it is a gap marker. */
  function DeclaredDrops(payload: string): Option<nat> {
    match ParseLine(payload)
    case Err(_) => None
    case Ok(v, _) => if v.Obj? then DeclaredIn(v.members) else None
  }

  function JsonFormat(): RecordFiles.Format<Body> { RecordFiles.Format(Render, CanonOf, ReadLine, ResumeLine, DeclaredDrops) }

  /** The line of a record parses to its lexeme tree, and drops the block to the payload's canonical text. */
  lemma RecordReads(p: Body, i: Chain.Integrity)
    ensures ReadLine(Render(p, i)) == Chain.Record(Chain.Event(CanonOf(p), i))
  {
    hide Stringify, EmitCanonical, Utf8, ExtractIntegrity, BlockJs, ParseLine, WfJs, LexedPairs, Stripped, Canon;
    RecordWf(p, i);
    CanonicalizersAgree(RecordJs(p, i));
    CanonicalizersAgree(JObj(p));
    StripsBlock(p, {NAME}, BlockJs(i));
    BlockFound(p, i);
  }

  lemma BlockFound(p: Body, i: Chain.Integrity)
    ensures ExtractIntegrity(LexedPairs(p + [Pair(NAME, BlockJs(i))])) == Some(i)
  {
    hide BlockJs, ExtractIntegrity, LexedPairs, PairField, Field, Lexed, WfPairs;
    var full := p + [Pair(NAME, BlockJs(i))];
    FindsBlock(p, {NAME}, BlockJs(i));
    FieldOfPairs(full, NAME);
    BlockReads(i, LexedPairs(full));
  }

  lemma RecordLineClean(p: Body, i: Chain.Integrity)
    ensures LF !in Render(p, i) && !Blank(Render(p, i))
  {
    hide Stringify, Utf8, Lexed, WfJs, Wf;
    var v := RecordJs(p, i);
    RecordWf(p, i);
    LexedPrints(v, 0);
    LexedWf(v, 0);
    PrintNoControl(Lexed(v), 0);
    ObjectHead(v);
    assert !IsSpace(Render(p, i)[0]);
  }

  lemma ObjectHead(v: Js)
    requires v.JObj?
    ensures Print(Lexed(v)) != "" && Print(Lexed(v))[0] == '{'
  {
  }

  /** What is rendered reads back exactly, for every event body and every integrity block. */
  lemma JsonFormatIsFaithful()
    ensures RecordFiles.Faithful(JsonFormat())
  {
    hide Render, CanonOf, ReadLine, Blank;
    forall p: Body, i: Chain.Integrity
      ensures LF !in Render(p, i) && !Blank(Render(p, i))
      ensures ReadLine(Render(p, i)) == Chain.Record(Chain.Event(CanonOf(p), i))
    {
      RecordReads(p, i);
      RecordLineClean(p, i);
    }
  }

  // ----- both programs rebuild the hash the writer took

  lemma {:induction false} BodyBytes(s: string)
    requires NoControl(s)
    ensures Text.Body(Utf8(s)) == Utf8(Text.Body(s))
  {
    hide EncodeChar;
    if s != "" {
      BodyBytes(s[1..]);
      CharBody(s[0]);
      BodyConcat(EncodeChar(s[0]), Utf8(s[1..]));
      Utf8Concat(Escaped(s[0]), Text.Body(s[1..]));
    }
  }

  lemma {:induction false} BodyConcat(a: string, b: string)
    ensures Text.Body(a + b) == Text.Body(a) + Text.Body(b)
  {
    hide Escaped;
    if a == "" {
      assert a + b == b;
    } else {
      assert (a + b)[1..] == a[1..] + b;
      BodyConcat(a[1..], b);
    }
  }

  lemma CharBody(c: char)
    requires c as int >= 0x20
    ensures Text.Body(EncodeChar(c)) == Utf8(Escaped(c))
  {
    var b := EncodeChar(c);
    if c as int < 0x80 {
      BodyOne(c);
      EscapedAscii(c);
      Utf8Ascii(Escaped(c));
    } else {
      HighBytes(c);
      HighBody(b);
      Utf8One(c);
    }
  }

  lemma BodyOne(c: char)
    ensures Text.Body([c]) == Escaped(c)
  {
    assert [c][1..] == "";
    assert Text.Body([c]) == Escaped(c) + Text.Body("");
  }

  lemma HighBytes(c: char)
    requires c as int >= 0x80
    ensures forall k | 0 <= k < |EncodeChar(c)| :: EncodeChar(c)[k] as int >= 0x80
  {
  }

  lemma {:induction false} HighBody(b: string)
    requires forall k | 0 <= k < |b| :: b[k] as int >= 0x80
    ensures Text.Body(b) == b
  {
    if b != "" { HighBody(b[1..]); }
  }

  lemma {:induction false} BytesNoControl(s: string)
    requires NoControl(Utf8(s))
    ensures NoControl(s)
  {
    if s != "" {
      assert Utf8(s)[0] == EncodeChar(s[0])[0];
      assert Utf8(s)[|EncodeChar(s[0])|..] == Utf8(s[1..]);
      BytesNoControl(s[1..]);
    }
  }

  lemma QuoteBytes(p: string)
    requires NoControl(p)
    ensures Utf8(Quote(p)) == Quote(Utf8(p))
  {
    hide Text.Body, Utf8;
    BodyBytes(p);
    Utf8Three("\"", Text.Body(p), "\"");
    Utf8Ascii("\"");
  }

  /** The bytes of the hashed text are the hashed text of the payload's bytes. */
  lemma MaterialBytes(p: string, state: Chain.ChainState)
    requires NoControl(p) && (state.previousHash.Some? ==> Ascii(state.previousHash.value))
    ensures Utf8(Chain.HashMaterial(p, state)) == Chain.HashMaterial(Utf8(p), state)
  {
    hide Utf8, Quote, QuoteOrNull, Integer;
    var i, q := Integer(state.chainIndex), QuoteOrNull(state.previousHash);
    IntegerIsNumber(state.chainIndex);
    NumberAscii(i);
    LinkAscii(state.previousHash);
    QuoteBytes(p);
    var head := "{\"chainIndex\":" + i + ",\"previousHash\":" + q + ",\"algorithm\":\"sha256\",\"payload\":";
    MaterialPieces(i, q, Quote(p));
    MaterialPieces(i, q, Quote(Utf8(p)));
    AsciiParts(i, q);
    Utf8Three(head, Quote(p), "}");
    Utf8Ascii(head);
    Utf8Ascii("}");
  }

  lemma AsciiParts(i: string, q: string)
    requires Ascii(i) && Ascii(q)
    ensures Ascii("{\"chainIndex\":" + i + ",\"previousHash\":" + q + ",\"algorithm\":\"sha256\",\"payload\":")
  {
  }

  lemma {:induction false} BodyAscii(s: string)
    requires Ascii(s)
    ensures Ascii(Text.Body(s))
  {
    hide Escaped;
    if s != "" {
      BodyAscii(s[1..]);
      EscapedAscii(s[0]);
    }
  }

  lemma LinkAscii(h: Option<string>)
    requires h.Some? ==> Ascii(h.value)
    ensures Ascii(QuoteOrNull(h))
  {
    hide Text.Body;
    if h.Some? { BodyAscii(h.value); }
  }

  lemma RecordStrips(p: Body, i: Chain.Integrity)
    ensures ParseLine(Render(p, i)).Ok? && ParseLine(Render(p, i)).value.Obj?
    ensures Obj(Stripped(ParseLine(Render(p, i)).value.members)) == Lexed(JObj(p))
  {
    hide Stringify, EmitCanonical, Utf8, BlockJs, ParseLine, WfJs, Canon, Stripped, LexedPairs, WfPairs;
    RecordWf(p, i);
    CanonicalizersAgree(RecordJs(p, i));
    StripsBlock(p, {NAME}, BlockJs(i));
    assert Lexed(RecordJs(p, i)) == Obj(LexedPairs(p + [Pair(NAME, BlockJs(i))]));
  }

  /** From the bytes of a written line the verifier rebuilds exactly the bytes the writer hashed. */
  lemma BothRebuildTheHash(p: Body, i: Chain.Integrity)
    requires i.previousHash.Some? ==> Ascii(i.previousHash.value)
    ensures var state := Chain.ChainState(i.chainIndex, i.previousHash);
            var line := Render(p, i);
            && ParseLine(line).Ok? && ParseLine(line).value.Obj?
            && RebuiltMaterial(Integer(i.chainIndex), QuoteOrNull(i.previousHash), Canon(Obj(Stripped(ParseLine(line).value.members))))
               == Utf8(Chain.HashMaterial(EmitCanonical(JObj(p)), state))
  {
    hide Stringify, EmitCanonical, Utf8, BlockJs, ParseLine, WfJs, Wf, Canon, RebuiltMaterial, Chain.HashMaterial, Integer, QuoteOrNull,
      Lexed, Stripped, Render;
    var state := Chain.ChainState(i.chainIndex, i.previousHash);
    RecordWf(p, i);
    CanonicalizersAgree(JObj(p));
    LexedWf(JObj(p), 0);
    var v := Lexed(JObj(p));
    RecordStrips(p, i);
    CanonQuotes(v);
    RebuiltIsWritten(v, state);
    BytesNoControl(EmitCanonical(JObj(p)));
    MaterialBytes(EmitCanonical(JObj(p)), state);
  }
}
