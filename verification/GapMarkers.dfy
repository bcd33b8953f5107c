/** The gap marker (gapPayload in src/audit/logger.ts) as a JSON record, and how a verifier reads it back. */
module GapMarkers {
  import opened Wrappers
  import opened Text
  import opened JsonTokenizer
  import opened JsonPrinter
  import opened Cu1
  import opened Encoding
  import opened Agreement
  import opened JsonRecords
  import Writer

  // ----- members by name survive sorting

  lemma {:induction false} FieldIn(members: seq<Member>, name: string)
    ensures match Field(members, name)
            case Some(v) => exists m :: m in members && Key(m) == Points(name) && m.val == v
            case None => forall m | m in members :: Key(m) != Points(name)
    decreases members
  {
    hide Points, Key;
    if members != [] {
      FieldIn(members[1..], name);
      assert members == [members[0]] + members[1..];
    }
  }

  /** Where keys are distinct, a member found by name is the only one of that name. */
  lemma {:induction false} FieldOnly(members: seq<Member>, depth: nat, seen: set<seq<int>>, name: string, m: Member)
    requires WfMembers(members, depth, seen) && m in members && Key(m) == Points(name)
    ensures Field(members, name) == Some(m.val)
    decreases members
  {
    hide Points, Key, WfMember;
    if m != members[0] {
      FreshKey(members[1..], depth, seen + {Key(members[0])}, m);
      FieldOnly(members[1..], depth, seen + {Key(members[0])}, name, m);
    }
  }

  lemma FieldSorted(members: seq<Member>, depth: nat, name: string)
    requires WfMembers(members, depth, {})
    ensures Field(SortMembers(SortValues(members)), name)
         == match Field(members, name) case None => None case Some(v) => Some(SortDeep(v))
  {
    hide Points, WfMember, Field, SortDeep, SortMembers;
    var sorted := SortMembers(SortValues(members));
    FieldIn(members, name);
    FieldIn(sorted, name);
    SortValuesAt(members);
    SortContents(SortValues(members));
    SortValuesWf(members, depth, {});
    SortWf(SortValues(members), depth, {});
    if Field(members, name).Some? {
      var m :| m in members && Key(m) == Points(name) && m.val == Field(members, name).value;
      var i :| 0 <= i < |members| && members[i] == m;
      assert SortValues(members)[i] == SortMember(m);
      FieldOnly(sorted, depth, {}, name, SortMember(m));
    } else {
      forall n | n in sorted
        ensures Key(n) != Points(name)
      {
        var i :| 0 <= i < |members| && SortValues(members)[i] == n;
        assert Key(n) == Key(members[i]);
      }
    }
  }

  // ----- what a body declares

  function TextIn(v: Option<Js>): Option<string> { match v case Some(JStr(s)) => Some(s) case _ => None }

  function ActionOf(p: Body): Option<string> { TextIn(PairField(p, "action")) }

  function DropsIn(metadata: Option<Js>): nat {
    match metadata case Some(JObj(ms)) => Stated(TextIn(PairField(ms, "droppedRecords"))) case _ => 0
  }

  /** A member of an object is found in its canonical text as it is found in memory, sorted at depth. */
  lemma FieldInCanon(ms: seq<Pair>, depth: nat, name: string)
    requires WfMembers(LexedPairs(ms), depth, {})
    ensures Field(SortMembers(SortValues(LexedPairs(ms))), name)
         == match PairField(ms, name) case None => None case Some(v) => Some(SortDeep(Lexed(v)))
  {
    hide Field, PairField, LexedPairs, SortDeep, Lexed, SortMembers, SortValues, WfMembers;
    FieldSorted(LexedPairs(ms), depth, name);
    FieldOfPairs(ms, name);
  }

  lemma StringInCanon(v: Option<Js>)
    ensures StringOf(match v case None => None case Some(x) => Some(SortDeep(Lexed(x)))) == TextIn(v)
  {
    hide TextOf, Utf16, Utf8, Quote;
    match v
    case Some(JStr(s)) => TextReads(s);
    case _ =>
  }

  /** The value of a member is well formed one level down. */
  lemma ValueWf(ms: seq<Pair>, depth: nat, name: string, inner: seq<Pair>)
    requires WfMembers(LexedPairs(ms), depth, {}) && PairField(ms, name) == Some(JObj(inner))
    ensures WfMembers(LexedPairs(inner), depth + 1, {})
  {
    hide LexedPairs, WfMembers, Field, PairField;
    FieldOfPairs(ms, name);
    FieldIn(LexedPairs(ms), name);
    var m :| m in LexedPairs(ms) && Key(m) == Points(name) && m.val == Lexed(JObj(inner));
    FreshKey(LexedPairs(ms), depth, {}, m);
  }

  /** For every event body: read off its canonical text, it declares drops exactly when its action says it is
      a gap marker, and then the count its metadata states. */
  lemma DeclaredDropsExactly(p: Body)
    ensures DeclaredDrops(CanonOf(p)) == if ActionOf(p) == Some(GAP_ACTION) then Some(DropsIn(PairField(p, "metadata"))) else None
  {
    hide PairField, LexedPairs, Field, TextOf, SortMembers, SortValues, ParseLine, Canon, WfMembers, StringOf, Stated, DeclaredIn;
    var ms := LexedPairs(p);
    CanonParses(p);
    FieldInCanon(p, 1, "action");
    FieldInCanon(p, 1, "metadata");
    StringInCanon(PairField(p, "action"));
    match PairField(p, "metadata") {
      case Some(JObj(inner)) =>
        ValueWf(p, 1, "metadata", inner);
        FieldInCanon(inner, 2, "droppedRecords");
        StringInCanon(PairField(inner, "droppedRecords"));
      case _ =>
    }
    DeclaredFrom(SortMembers(SortValues(ms)), PairField(p, "action"), PairField(p, "metadata"));
  }

  lemma CanonParses(p: Body)
    ensures ParseLine(CanonOf(p)).Ok? && ParseLine(CanonOf(p)).value == Obj(SortMembers(SortValues(LexedPairs(p))))
    ensures WfMembers(LexedPairs(p), 1, {})
  {
    hide ParseLine, Canon, LexedPairs, SortMembers, SortValues, WfMembers, Utf8, EmitCanonical, Stringify, WfJs;
    BodyWf(p);
    CanonicalizersAgree(JObj(p));
    LexedWf(JObj(p), 0);
    CanonRoundTrip(Lexed(JObj(p)));
  }

  lemma BodyWf(p: Body)
    ensures WfJs(JObj(p), 0)
  {
    FewerKeys(p, 1, {NAME}, {});
  }

  /** What the parsed canonical text declares, given what its members hold. */
  lemma DeclaredFrom(members: seq<Member>, action: Option<Js>, metadata: Option<Js>)
    requires StringOf(Field(members, "action")) == TextIn(action)
    requires match metadata
             case None => Field(members, "metadata") == None
             case Some(JObj(inner)) =>
               && Field(members, "metadata") == Some(Obj(SortMembers(SortValues(LexedPairs(inner)))))
               && StringOf(Field(SortMembers(SortValues(LexedPairs(inner))), "droppedRecords")) == TextIn(PairField(inner, "droppedRecords"))
             case Some(v) => Field(members, "metadata") == Some(SortDeep(Lexed(v)))
    ensures DeclaredIn(members) == if TextIn(action) == Some(GAP_ACTION) then Some(DropsIn(metadata)) else None
  {
    hide PairField, LexedPairs, Field, TextOf, SortMembers, SortValues, StringOf, Stated, Utf8, Utf16, Quote;
  }

  // ----- the marker the logger writes

  /** The id and the time of one marker. */
  datatype Stamp = Stamp(id: string, timestamp: string)

  /** Times are counters here; they are written as their decimal digits. */
  function GapMetadata(g: Writer.Gap): seq<Pair> {
    [Pair("droppedRecords", JStr(Decimal(g.count))), Pair("firstFailureAt", JStr(Decimal(g.firstFailure))),
     Pair("lastFailureAt", JStr(Decimal(g.lastFailure))), Pair("reason", JStr(g.reason))]
  }

  function Reason(g: Writer.Gap): string { Decimal(g.count) + " audit record(s) could not be written and are absent from this chain" }

  function GapMembers(s: Stamp, g: Writer.Gap): seq<Pair> {
    [Pair("id", JStr(s.id)), Pair("timestamp", JStr(s.timestamp)), Pair("agentId", JStr("agentwall")), Pair("plane", JStr("governance")),
     Pair("action", JStr(GAP_ACTION)), Pair("decision", JStr("deny")), Pair("riskLevel", JStr("critical")), Pair("matchedRules", JArr([])),
     Pair("reasons", JArr([JStr(Reason(g))])), Pair("requiresApproval", JBool(false)), Pair("highRiskFlow", JBool(false)),
     Pair("detections", JArr([])), Pair("metadata", JObj(GapMetadata(g)))]
  }

  predicate AllFlat(ms: seq<Pair>, depth: nat) { forall i | 0 <= i < |ms| :: WfJs(ms[i].val, depth) }

  predicate KeysDiffer(ms: seq<Pair>, seen: set<string>) {
    && (forall i | 0 <= i < |ms| :: ms[i].key !in seen)
    && (forall i, j | 0 <= i < j < |ms| :: ms[i].key != ms[j].key)
  }

  lemma {:induction false} DistinctWf(ms: seq<Pair>, depth: nat, seen: set<string>)
    requires AllFlat(ms, depth) && KeysDiffer(ms, seen)
    ensures WfPairs(ms, depth, seen)
    decreases ms
  {
    hide WfJs;
    if ms != [] { DistinctWf(ms[1..], depth, seen + {ms[0].key}); }
  }

  lemma MetadataWf(g: Writer.Gap)
    ensures WfJs(JObj(GapMetadata(g)), 1)
  {
    var ms := GapMetadata(g);
    assert |ms[0].key| == 14 && |ms[1].key| == 14 && |ms[2].key| == 13 && |ms[3].key| == 6;
    assert ms[0].key[0] == 'd' && ms[1].key[0] == 'f';
    DistinctWf(ms, 2, {});
  }

  /** A number for each member's key: its length, and its first letter. */
  function Mark(key: string): int { if key == "" then 0 else |key| * 200 + (key[0] as int - 'a' as int) }

  function GapMark(i: nat): int {
    if i == 0 then 408 else if i == 1 then 1819 else if i == 2 then 1400 else if i == 3 then 1015 else if i == 4 then 1200
    else if i == 5 then 1603 else if i == 6 then 1817 else if i == 7 then 2412 else if i == 8 then 1417 else if i == 9 then 3217
    else if i == 10 then 2407 else if i == 11 then 2003 else 1612
  }

  lemma GapMarks(s: Stamp, g: Writer.Gap, i: nat)
    requires i < |GapMembers(s, g)|
    ensures Mark(GapMembers(s, g)[i].key) == GapMark(i)
  {
    hide GapMetadata, Reason;
  }

  lemma MarksDiffer(i: nat, j: nat)
    requires i < j < 13
    ensures GapMark(i) != GapMark(j) && GapMark(i) != Mark(NAME)
  {
  }

  lemma GapKeys(s: Stamp, g: Writer.Gap)
    ensures KeysDiffer(GapMembers(s, g), {NAME})
  {
    hide GapMembers, Mark, GapMark;
    var ms := GapMembers(s, g);
    GapSize(s, g);
    forall i | 0 <= i < |ms|
      ensures ms[i].key !in {NAME}
      ensures forall j | i < j < |ms| :: ms[i].key != ms[j].key
    {
      GapMarks(s, g, i);
      MarksDiffer(if i < 12 then i else 0, 12);
      LastMark();
      forall j | i < j < |ms|
        ensures ms[i].key != ms[j].key
      {
        GapMarks(s, g, j);
        MarksDiffer(i, j);
      }
    }
  }

  lemma LastMark()
    ensures GapMark(12) != Mark(NAME)
  {
  }

  lemma GapSize(s: Stamp, g: Writer.Gap)
    ensures |GapMembers(s, g)| == 13
  {
    hide GapMetadata, Reason;
  }

  lemma GapFlat(s: Stamp, g: Writer.Gap)
    ensures AllFlat(GapMembers(s, g), 1)
  {
    hide GapMetadata, Reason;
    MetadataWf(g);
    assert WfJsItems([], 2) && WfJsItems([JStr(Reason(g))], 2);
  }

  lemma GapWf(s: Stamp, g: Writer.Gap)
    ensures WfPairs(GapMembers(s, g), 1, {NAME})
  {
    hide GapMembers, AllFlat, KeysDiffer;
    GapKeys(s, g);
    GapFlat(s, g);
    DistinctWf(GapMembers(s, g), 1, {NAME});
  }

  /** gapPayload. */
  function GapBody(s: Stamp, g: Writer.Gap): Body {
    GapWf(s, g);
    GapMembers(s, g)
  }

  lemma {:induction false} PairAt(ms: seq<Pair>, i: nat)
    requires i < |ms| && forall j | 0 <= j < i :: ms[j].key != ms[i].key
    ensures PairField(ms, ms[i].key) == Some(ms[i].val)
    decreases i
  {
    if i > 0 { PairAt(ms[1..], i - 1); }
  }

  /** The marker written for a gap reads back as that gap's count. */
  lemma GapDeclaresItsCount(s: Stamp, g: Writer.Gap)
    ensures DeclaredDrops(CanonOf(GapBody(s, g))) == Some(g.count)
  {
    hide DeclaredDrops, CanonOf, PairField, KeysDiffer, Decimal, Reason;
    var p, data := GapBody(s, g), GapMetadata(g);
    DeclaredDropsExactly(p);
    GapKeys(s, g);
    ByKey(p, {NAME}, 4);
    ByKey(p, {NAME}, 12);
    assert data[0].key == "droppedRecords";
    PairAt(data, 0);
    NumberOfDecimal(g.count);
    DecimalDigits(g.count);
  }

  lemma ByKey(ms: seq<Pair>, seen: set<string>, i: nat)
    requires KeysDiffer(ms, seen) && i < |ms|
    ensures PairField(ms, ms[i].key) == Some(ms[i].val)
  {
    PairAt(ms, i);
  }

  /** What a marker says besides: nothing was permitted and no policy is credited with it, it is critical, and its metadata
      names the count, both times and the first reason of its gap. */
  lemma GapSays(s: Stamp, g: Writer.Gap)
    ensures var p := GapBody(s, g);
            && PairField(p, "action") == Some(JStr("audit:chain-gap")) && PairField(p, "plane") == Some(JStr("governance"))
            && PairField(p, "agentId") == Some(JStr("agentwall"))
            && PairField(p, "decision") == Some(JStr("deny")) && PairField(p, "riskLevel") == Some(JStr("critical"))
            && PairField(p, "matchedRules") == Some(JArr([])) && PairField(p, "detections") == Some(JArr([]))
            && PairField(p, "requiresApproval") == Some(JBool(false)) && PairField(p, "highRiskFlow") == Some(JBool(false))
            && PairField(p, "reasons")
               == Some(JArr([JStr(Decimal(g.count) + " audit record(s) could not be written and are absent from this chain")]))
            && PairField(p, "metadata")
               == Some(JObj([Pair("droppedRecords", JStr(Decimal(g.count))), Pair("firstFailureAt", JStr(Decimal(g.firstFailure))),
                             Pair("lastFailureAt", JStr(Decimal(g.lastFailure))), Pair("reason", JStr(g.reason))]))
  {
    hide PairField, KeysDiffer, Decimal;
    var p := GapBody(s, g);
    GapKeys(s, g);
    ByKey(p, {NAME}, 2);
    ByKey(p, {NAME}, 3);
    ByKey(p, {NAME}, 4);
    ByKey(p, {NAME}, 5);
    ByKey(p, {NAME}, 6);
    ByKey(p, {NAME}, 7);
    ByKey(p, {NAME}, 8);
    ByKey(p, {NAME}, 9);
    ByKey(p, {NAME}, 10);
    ByKey(p, {NAME}, 11);
    ByKey(p, {NAME}, 12);
  }
}
