/** The hash material as the independent verifier rebuilds it (verifier/canon.go): the integrity block is
    dropped, and the payload is quoted by escaping backslash and quote only. */
module Material {
  import opened Text
  import opened JsonLexer
  import opened JsonTokenizer
  import opened JsonPrinter
  import opened Cu1
  import Chain

  // ----- quoting by two escapes

  function TwoEscapes(payload: string): string {
    if payload == "" then ""
    else (if payload[0] == '\\' || payload[0] == '"' then "\\" else "") + [payload[0]] + TwoEscapes(payload[1..])
  }

  /** appendJSONStringOfJSON. */
  method AppendJsonString(dst: string, payload: string) returns (r: string)
    ensures r == dst + "\"" + TwoEscapes(payload) + "\""
  {
    r := dst + "\"";
    ghost var start := r;
    assert payload[0..] == payload;
    for i := 0 to |payload|
      invariant start + TwoEscapes(payload) == r + TwoEscapes(payload[i..])
    {
      assert payload[i..][1..] == payload[i + 1..] && payload[i..][0] == payload[i];
      var c := payload[i];
      if c == '\\' || c == '"' { r := r + "\\"; }
      r := r + [c];
    }
    r := r + "\"";
  }

  predicate NoControl(s: string) { forall i | 0 <= i < |s| :: s[i] as int >= 0x20 }

  lemma {:induction false} TwoEscapesSuffice(s: string)
    requires NoControl(s)
    ensures TwoEscapes(s) == Body(s)
  {
    if s != "" { TwoEscapesSuffice(s[1..]); }
  }

  // ----- canonical text holds no control character

  lemma {:induction false} StringNoControl(s: string, i: nat, k: nat)
    requires i <= |s| && StringBody(s, i).Some? && i <= k < StringBody(s, i).value.end
    ensures s[k] as int >= 0x20
    decreases |s| - i
  {
    if s[i] != '"' {
      var e := Element(s, i).value.end;
      if k < e { ElementNoControl(s, i, k); } else { StringNoControl(s, e, k); }
    }
  }

  lemma ElementNoControl(s: string, i: nat, k: nat)
    requires i < |s| && Element(s, i).Some? && i <= k < Element(s, i).value.end
    ensures s[k] as int >= 0x20
  {
    if s[i] == '\\' {
      if s[i + 1] == 'u' { HexNoControl(s, i + 1); }
    } else {
      RuneNoControl(s, i, k);
    }
  }

  lemma HexNoControl(s: string, i: nat)
    requires Hex4(s, i).Some?
    ensures i + 5 <= |s| && forall k | i < k < i + 5 :: s[k] as int >= 0x20
  {
  }

  lemma RuneNoControl(s: string, i: nat, k: nat)
    requires i < |s| && s[i] as int >= 0x20 && DecodeRune(s, i).Some? && i <= k < i + DecodeRune(s, i).value.1
    ensures s[k] as int >= 0x20
  {
  }

  lemma QuotedNoControl(raw: string, units: seq<int>)
    requires ParseString(raw, 0) == Ok(units, |raw|)
    ensures NoControl(raw)
  {
    hide Element;
    forall k | 0 <= k < |raw|
      ensures raw[k] as int >= 0x20
    {
      if k > 0 { StringNoControl(raw, 1, k); }
    }
  }

  lemma ScalarNoControl(v: Value)
    requires v.Scalar? && v.raw != "" && ParseScalar(v.raw, 0) == Ok(v, |v.raw|)
    ensures NoControl(v.raw)
  {
    hide NumberEnd, ParseString;
    var raw := v.raw;
    if raw[0] == '"' {
      QuotedNoControl(raw, v.units);
    } else if raw[0] == '-' || IsDigit(raw[0]) {
      forall k | 0 <= k < |raw|
        ensures raw[k] as int >= 0x20
      {
        NumberPlain(raw, k);
      }
    } else {
      LiteralNoControl();
    }
  }

  lemma LiteralNoControl()
    ensures NoControl("true") && NoControl("false") && NoControl("null")
  {
  }

  lemma {:induction false} PrintNoControl(v: Value, depth: nat)
    requires Wf(v, depth)
    ensures NoControl(Print(v))
    decreases v, 0
  {
    hide ParseScalar;
    match v
    case Scalar(_, _, _) => ScalarNoControl(v);
    case Arr(items) => ItemsNoControl(items, depth + 1);
    case Obj(members) => MembersNoControl(members, depth + 1, {});
  }

  lemma {:induction false} ItemsNoControl(items: seq<Value>, depth: nat)
    requires WfItems(items, depth)
    ensures NoControl(PrintItems(items))
    decreases items, 1
  {
    hide Wf;
    if items != [] {
      PrintNoControl(items[0], depth);
      ItemsNoControl(items[1..], depth);
    }
  }

  lemma {:induction false} MembersNoControl(members: seq<Member>, depth: nat, seen: set<seq<int>>)
    requires WfMembers(members, depth, seen)
    ensures NoControl(PrintMembers(members))
    decreases members, 1
  {
    hide Wf, ParseString;
    if members != [] {
      QuotedNoControl(members[0].keyRaw, members[0].units);
      PrintNoControl(members[0].val, depth);
      MembersNoControl(members[1..], depth, seen + {Key(members[0])});
    }
  }

  /** No canonical text holds a character below 0x20, so escaping two characters quotes it in full. */
  lemma CanonQuotes(v: Value)
    requires Wf(v, 0)
    ensures NoControl(Canon(v))
    ensures "\"" + TwoEscapes(Canon(v)) + "\"" == Quote(Canon(v))
  {
    hide Wf, Body;
    CanonIsPrint(v);
    SortDeepWf(v, 0);
    PrintNoControl(SortDeep(v), 0);
    TwoEscapesSuffice(Canon(v));
  }

  // ----- the record without its integrity block

  /** The code points of "integrity". */
  const INTEGRITY: seq<int> := [0x69, 0x6e, 0x74, 0x65, 0x67, 0x72, 0x69, 0x74, 0x79]

  function Stripped(members: seq<Member>): seq<Member> {
    if members == [] then []
    else (if Key(members[0]) == INTEGRITY then [] else [members[0]]) + Stripped(members[1..])
  }

  /** canonicalPayload, on the members of a record. */
  method CanonicalPayload(members: seq<Member>) returns (text: string)
    ensures text == Canon(Obj(Stripped(members)))
  {
    hide Key, Runes;
    var stripped: seq<Member> := [];
    assert members[0..] == members;
    for i := 0 to |members|
      invariant Stripped(members) == stripped + Stripped(members[i..])
    {
      assert members[i..][1..] == members[i + 1..] && members[i..][0] == members[i];
      if Key(members[i]) != INTEGRITY { stripped := stripped + [members[i]]; }
    }
    assert stripped == Stripped(members);
    return Canon(Obj(stripped));
  }

  lemma {:induction false} StrippedWf(members: seq<Member>, depth: nat, seen: set<seq<int>>)
    requires WfMembers(members, depth, seen)
    ensures WfMembers(Stripped(members), depth, seen)
    decreases members
  {
    hide WfMember, Key;
    if members != [] {
      var k := Key(members[0]);
      StrippedWf(members[1..], depth, seen + {k});
      if k == INTEGRITY {
        FewerSeen(Stripped(members[1..]), depth, seen + {k}, seen);
        assert Stripped(members) == Stripped(members[1..]);
      } else {
        assert ([members[0]] + Stripped(members[1..]))[1..] == Stripped(members[1..]);
      }
    }
  }

  lemma {:induction false} FewerSeen(members: seq<Member>, depth: nat, seen: set<seq<int>>, fewer: set<seq<int>>)
    requires WfMembers(members, depth, seen) && fewer <= seen
    ensures WfMembers(members, depth, fewer)
    decreases members
  {
    hide WfMember, Key;
    if members != [] { FewerSeen(members[1..], depth, seen + {Key(members[0])}, fewer + {Key(members[0])}); }
  }

  // ----- the material

  function RebuiltMaterial(index: string, previousLexeme: string, payload: string): string {
    "{\"chainIndex\":" + index + ",\"previousHash\":" + previousLexeme + ",\"algorithm\":\"sha256\",\"payload\":"
    + "\"" + TwoEscapes(payload) + "\"" + "}"
  }

  /** hashMaterial. */
  method RebuildMaterial(index: string, previousLexeme: string, payload: string) returns (buf: string)
    ensures buf == RebuiltMaterial(index, previousLexeme, payload)
  {
    hide TwoEscapes;
    buf := "{\"chainIndex\":" + index + ",\"previousHash\":" + previousLexeme + ",\"algorithm\":\"sha256\",\"payload\":";
    buf := AppendJsonString(buf, payload);
    buf := buf + "}";
  }

  /** On every canonical payload the rebuilt material is the writer's, so a record's position, link and
      payload are recoverable from it. */
  lemma RebuiltIsWritten(v: Value, state: Chain.ChainState)
    requires Wf(v, 0)
    ensures RebuiltMaterial(Integer(state.chainIndex), QuoteOrNull(state.previousHash), Canon(v)) == Chain.HashMaterial(Canon(v), state)
  {
    hide Quote, QuoteOrNull, TwoEscapes, Integer, Wf, Canon;
    CanonQuotes(v);
    var i, q, p := Integer(state.chainIndex), QuoteOrNull(state.previousHash), Quote(Canon(v));
    MaterialPieces(i, q, p);
    Regroup(i, q, TwoEscapes(Canon(v)));
  }

  /** The same for a whole record, once its integrity block is dropped. */
  lemma RecordMaterial(members: seq<Member>, state: Chain.ChainState)
    requires Wf(Obj(members), 0)
    ensures var payload := Canon(Obj(Stripped(members)));
            RebuiltMaterial(Integer(state.chainIndex), QuoteOrNull(state.previousHash), payload) == Chain.HashMaterial(payload, state)
  {
    hide WfMembers, Canon, Stripped, RebuiltMaterial, Chain.HashMaterial;
    StrippedWf(members, 1, {});
    RebuiltIsWritten(Obj(Stripped(members)), state);
  }

  lemma MaterialPieces(i: string, q: string, p: string)
    ensures Chain.INDEX_KEY + (i + [','] + (Chain.LINK_KEY + (q + (Chain.PAYLOAD_KEY + (p + "}")))))
         == "{\"chainIndex\":" + i + ",\"previousHash\":" + q + ",\"algorithm\":\"sha256\",\"payload\":" + p + "}"
  {
    assert "," + Chain.LINK_KEY == ",\"previousHash\":";
  }

  lemma Regroup(i: string, q: string, t: string)
    ensures "{\"chainIndex\":" + i + ",\"previousHash\":" + q + ",\"algorithm\":\"sha256\",\"payload\":" + ("\"" + t + "\"") + "}"
         == "{\"chainIndex\":" + i + ",\"previousHash\":" + q + ",\"algorithm\":\"sha256\",\"payload\":" + "\"" + t + "\"" + "}"
  {
  }

  /** Two canonical payloads give the same material exactly when they are the same at the same position. */
  lemma RebuiltInjective(v: Value, s: Chain.ChainState, w: Value, t: Chain.ChainState)
    requires Wf(v, 0) && Wf(w, 0)
    ensures RebuiltMaterial(Integer(s.chainIndex), QuoteOrNull(s.previousHash), Canon(v))
         == RebuiltMaterial(Integer(t.chainIndex), QuoteOrNull(t.previousHash), Canon(w))
       <==> SameUpToOrder(v, w) && s == t
  {
    hide Wf, Canon, RebuiltMaterial, Chain.HashMaterial;
    RebuiltIsWritten(v, s);
    RebuiltIsWritten(w, t);
    Chain.MaterialInjective(Canon(v), s, Canon(w), t);
    PrintRoundTrips(v);
    PrintRoundTrips(w);
    CanonInjective(Print(v), Print(w));
  }

  lemma PrintRoundTrips(v: Value)
    requires Wf(v, 0)
    ensures ParseLine(Print(v)).Ok? && ParseLine(Print(v)).value == v
  {
    PrintRoundTrip(v);
  }
}
