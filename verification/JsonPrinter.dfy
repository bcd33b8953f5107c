/** The printer that goes with the tokenizer: a value in its own member order, lexemes verbatim, no
    whitespace. What the tokenizer accepts is well formed, and it undoes the printer. */
module JsonPrinter {
  import opened Text
  import opened JsonLexer
  import opened JsonTokenizer

  // ----- printing a value in its own member order

  function Print(v: Value): string {
    match v
    case Scalar(_, raw, _) => raw
    case Arr(items) => "[" + PrintItems(items)
    case Obj(members) => "{" + PrintMembers(members)
  }

  function PrintItems(items: seq<Value>): string {
    if items == [] then "]"
    else if |items| == 1 then Print(items[0]) + "]"
    else Print(items[0]) + "," + PrintItems(items[1..])
  }

  function PrintMember(m: Member): string { m.keyRaw + ":" + Print(m.val) }

  function PrintMembers(members: seq<Member>): string {
    if members == [] then "}"
    else if |members| == 1 then PrintMember(members[0]) + "}"
    else PrintMember(members[0]) + "," + PrintMembers(members[1..])
  }

  // ----- values the tokenizer can produce

  predicate WfKey(m: Member) { ParseString(m.keyRaw, 0) == Ok(m.units, |m.keyRaw|) }

  /** `v` at nesting `depth`: every lexeme is one, keys are distinct, the depth cap is kept. */
  predicate Wf(v: Value, depth: nat) {
    depth <= MAX_PARSE_DEPTH &&
    match v
    case Scalar(_, raw, _) => raw != "" && ParseScalar(raw, 0) == Ok(v, |raw|)
    case Arr(items) => WfItems(items, depth + 1)
    case Obj(members) => WfMembers(members, depth + 1, {})
  }

  predicate WfItems(items: seq<Value>, depth: nat) {
    items != [] ==> Wf(items[0], depth) && WfItems(items[1..], depth)
  }

  predicate WfMember(m: Member, depth: nat) { WfKey(m) && Wf(m.val, depth) }

  predicate WfMembers(members: seq<Member>, depth: nat, seen: set<seq<int>>) {
    members != [] ==>
      WfMember(members[0], depth) && Key(members[0]) !in seen &&
      WfMembers(members[1..], depth, seen + {Key(members[0])})
  }

  // ----- what the tokenizer accepts is well formed

  lemma ParsedScalarWf(s: string, i: nat)
    requires i < |s| && ParseScalar(s, i).Ok?
    ensures var Ok(v, e) := ParseScalar(s, i);
            v.Scalar? && v.raw != "" && ParseScalar(v.raw, 0) == Ok(v, |v.raw|)
  {
    hide Element, IntEnd, TailEnd;
    var Ok(v, e) := ParseScalar(s, i);
    var raw := v.raw;
    SameSlice(s, i, raw, 0, e - i);
    SameChar(s, i, raw, 0, e - i, 0);
    assert raw[0..|raw|] == raw;
    if s[i] == '"' {
      SameTail(s, i, raw, 0, e - i, 1);
      StringLocal(s, i + 1, raw, 1);
    } else if s[i] == '-' || IsDigit(s[i]) {
      NumberLocal(s, i, raw, 0, e - i);
    }
  }

  lemma ParsedKeyWf(s: string, i: nat, seen: set<seq<int>>, v: Value)
    requires i <= |s| && ParseKey(s, i, seen).Ok?
    ensures var (raw, units) := ParseKey(s, i, seen).value;
            WfKey(Member(raw, units, v)) && Runes(units) !in seen
  {
    hide Element;
    var w := WsEnd(s, i);
    var q := ParseString(s, w).end;
    var raw := s[w..q];
    SameSlice(s, w, raw, 0, q - w);
    SameChar(s, w, raw, 0, q - w, 0);
    SameTail(s, w, raw, 0, q - w, 1);
    StringLocal(s, w + 1, raw, 1);
  }

  lemma {:induction false} ParsedWf(s: string, i: nat, depth: nat)
    requires i <= |s| && ParseValue(s, i, depth).Ok?
    ensures Wf(ParseValue(s, i, depth).value, depth)
    decreases |s| - i, 2
  {
    hide ParseScalar;
    if s[i] == '{' {
      var w := WsEnd(s, i + 1);
      if !(w < |s| && s[w] == '}') { ParsedMembersWf(s, w, depth, {}); }
    } else if s[i] == '[' {
      var w := WsEnd(s, i + 1);
      if !(w < |s| && s[w] == ']') { ParsedItemsWf(s, w, depth); }
    } else {
      ParsedScalarWf(s, i);
    }
  }

  lemma {:induction false} ParsedMembersWf(s: string, i: nat, depth: nat, seen: set<seq<int>>)
    requires i <= |s| && ParseMembers(s, i, depth, seen).Ok?
    ensures WfMembers(ParseMembers(s, i, depth, seen).value, depth + 1, seen)
    decreases |s| - i, 3
  {
    hide ParseKey, WfKey, Wf;
    var Ok((raw, units), k) := ParseKey(s, i, seen);
    ParsedKeyWf(s, i, seen, ParseValue(s, k, depth + 1).value);
    ParsedWf(s, k, depth + 1);
    var Ok(m, p) := ParseMember(s, i, depth, seen);
    if s[p] == ',' {
      ParsedMembersWf(s, p + 1, depth, seen + {Key(m)});
    }
  }

  lemma {:induction false} ParsedItemsWf(s: string, i: nat, depth: nat)
    requires i <= |s| && ParseItems(s, i, depth).Ok?
    ensures WfItems(ParseItems(s, i, depth).value, depth + 1)
    decreases |s| - i, 3
  {
    hide Wf;
    var w := WsEnd(s, i);
    var Ok(v, n) := ParseValue(s, w, depth + 1);
    ParsedWf(s, w, depth + 1);
    var p := WsEnd(s, n);
    if s[p] == ',' {
      ParsedItemsWf(s, p + 1, depth);
    }
  }

  // ----- what is printed parses back

  lemma SameParts(a: string, b: string, s: string, i: nat)
    requires Same(a + b, 0, s, i, |a| + |b|)
    ensures Same(a, 0, s, i, |a|) && Same(b, 0, s, i + |a|, |b|)
  {
    var t := a + b;
    SameExact(t, s, i);
    var u := s[i..i + |t|];
    assert u[..|a|] == s[i..i + |a|] && u[|a|..] == s[i + |a|..i + |t|];
    assert u[..|a|] == a == a[0..|a|] && u[|a|..] == b == b[0..|b|];
    SameSlice(a, 0, s, i, |a|);
    SameSlice(b, 0, s, i + |a|, |b|);
  }

  lemma {:induction false} SameExactFrom(t: string, k: nat, s: string, i: nat, n: nat)
    requires Same(t, k, s, i, n)
    ensures k + n <= |t| && i + n <= |s| && t[k..k + n] == s[i..i + n]
    decreases n
  {
    if n > 0 {
      SameExactFrom(t, k + 1, s, i + 1, n - 1);
      assert t[k..k + n] == [t[k]] + t[k + 1..k + n];
      assert s[i..i + n] == [s[i]] + s[i + 1..i + n];
    }
  }

  lemma SameExact(t: string, s: string, i: nat)
    requires Same(t, 0, s, i, |t|)
    ensures i + |t| <= |s| && s[i..i + |t|] == t
  {
    SameExactFrom(t, 0, s, i, |t|);
    assert t[0..|t|] == t;
  }

  /** The chars a printed value can start with. */
  predicate Opens(c: char) {
    c == '{' || c == '[' || c == '"' || c == '-' || IsDigit(c) || c == 't' || c == 'f' || c == 'n'
  }

  lemma PrintHead(v: Value, depth: nat)
    requires Wf(v, depth)
    ensures Print(v) != "" && Opens(Print(v)[0])
  {
    hide NumberEnd, ParseString, ParseLiteral;
  }

  lemma StringParses(raw: string, units: seq<int>, s: string, i: nat)
    requires ParseString(raw, 0) == Ok(units, |raw|) && Same(raw, 0, s, i, |raw|)
    ensures i < |s| && s[i] == '"' && ParseString(s, i) == Ok(units, i + |raw|)
  {
    hide Element, Same;
    SameChar(raw, 0, s, i, |raw|, 0);
    SameTail(raw, 0, s, i, |raw|, 1);
    StringLocal(raw, 1, s, i + 1);
  }

  lemma ScalarParses(v: Value, s: string, i: nat)
    requires v.Scalar? && v.raw != "" && ParseScalar(v.raw, 0) == Ok(v, |v.raw|)
    requires Same(v.raw, 0, s, i, |v.raw|) && Ends(s, i + |v.raw|)
    ensures i < |s| && ParseScalar(s, i) == Ok(v, i + |v.raw|)
  {
    hide ParseString, NumberEnd, Same;
    var raw, n := v.raw, |v.raw|;
    SameExact(raw, s, i);
    SameChar(raw, 0, s, i, n, 0);
    if raw[0] == '"' {
      StringParses(raw, v.units, s, i);
    } else if raw[0] == '-' || IsDigit(raw[0]) {
      NumberLocal(raw, 0, s, i, n);
    }
  }

  lemma {:induction false} PrintParses(v: Value, s: string, i: nat, depth: nat)
    requires Wf(v, depth) && Same(Print(v), 0, s, i, |Print(v)|) && Ends(s, i + |Print(v)|)
    ensures i <= |s| && ParseValue(s, i, depth) == Ok(v, i + |Print(v)|)
    decreases v, 1
  {
    hide ParseScalar, Same;
    PrintHead(v, depth);
    SameChar(Print(v), 0, s, i, |Print(v)|, 0);
    match v
    case Scalar(_, _, _) =>
      ScalarParses(v, s, i);
      ScalarHead(v);
    case Arr(items) => ArrParses(items, s, i, depth);
    case Obj(members) => ObjParses(members, s, i, depth);
  }

  lemma {:induction false} ArrParses(items: seq<Value>, s: string, i: nat, depth: nat)
    requires depth <= MAX_PARSE_DEPTH && WfItems(items, depth + 1)
    requires Same("[" + PrintItems(items), 0, s, i, 1 + |PrintItems(items)|)
    ensures i < |s| && ParseValue(s, i, depth) == Ok(Arr(items), i + 1 + |PrintItems(items)|)
    decreases items, 1
  {
    hide ParseScalar, Same, Wf;
    SameChar("[" + PrintItems(items), 0, s, i, 1 + |PrintItems(items)|, 0);
    SameParts("[", PrintItems(items), s, i);
    if items == [] {
      SameChar("]", 0, s, i + 1, 1, 0);
    } else {
      ItemsHead(items, depth + 1);
      SameChar(PrintItems(items), 0, s, i + 1, |PrintItems(items)|, 0);
      ItemsParse(items, s, i + 1, depth);
    }
  }

  /** An object whose brace no space follows. */
  lemma OpensObject(s: string, i: nat, depth: nat)
    requires depth <= MAX_PARSE_DEPTH && i + 1 < |s| && s[i] == '{' && !IsWs(s[i + 1])
    ensures ParseValue(s, i, depth)
         == if s[i + 1] == '}' then Ok(Obj([]), i + 2)
            else match ParseMembers(s, i + 1, depth, {}) case Ok(ms, e) => Ok(Obj(ms), e) case Err(e) => Err(e)
  {
    hide ParseMembers, ParseItems, ParseScalar;
    assert WsEnd(s, i + 1) == i + 1;
  }

  lemma {:induction false} ObjParses(members: seq<Member>, s: string, i: nat, depth: nat)
    requires depth <= MAX_PARSE_DEPTH && WfMembers(members, depth + 1, {})
    requires Same("{" + PrintMembers(members), 0, s, i, 1 + |PrintMembers(members)|)
    ensures i < |s| && ParseValue(s, i, depth) == Ok(Obj(members), i + 1 + |PrintMembers(members)|)
    decreases members, 1
  {
    hide ParseScalar, Same, WfMember, ParseValue, ParseMembers;
    SameChar("{" + PrintMembers(members), 0, s, i, 1 + |PrintMembers(members)|, 0);
    SameParts("{", PrintMembers(members), s, i);
    if members == [] {
      SameChar("}", 0, s, i + 1, 1, 0);
      OpensObject(s, i, depth);
    } else {
      MembersHead(members, depth + 1, {});
      SameChar(PrintMembers(members), 0, s, i + 1, |PrintMembers(members)|, 0);
      OpensObject(s, i, depth);
      MembersParse(members, s, i + 1, depth, {});
    }
  }

  lemma ScalarHead(v: Value)
    requires v.Scalar? && v.raw != "" && ParseScalar(v.raw, 0) == Ok(v, |v.raw|)
    ensures v.raw[0] != '{' && v.raw[0] != '['
  {
    hide NumberEnd, ParseString, ParseLiteral;
  }

  lemma ItemsHead(items: seq<Value>, depth: nat)
    requires items != [] && WfItems(items, depth)
    ensures PrintItems(items) != "" && Opens(PrintItems(items)[0])
  {
    hide Wf;
    PrintHead(items[0], depth);
  }

  lemma MembersHead(members: seq<Member>, depth: nat, seen: set<seq<int>>)
    requires members != [] && WfMembers(members, depth, seen)
    ensures PrintMembers(members) != "" && PrintMembers(members)[0] == '"'
  {
    hide Wf, StringBody;
  }

  lemma {:induction false} ItemParses(v: Value, s: string, i: nat, depth: nat)
    requires Wf(v, depth + 1) && Same(Print(v), 0, s, i, |Print(v)|)
    requires var p := i + |Print(v)|; p < |s| && (s[p] == ',' || s[p] == ']')
    ensures i <= |s| && ParseItem(s, i, depth) == Ok(v, i + |Print(v)|)
    decreases v, 2
  {
    hide Same, ParseValue, Wf;
    PrintHead(v, depth + 1);
    SameChar(Print(v), 0, s, i, |Print(v)|, 0);
    PrintParses(v, s, i, depth + 1);
  }

  lemma {:induction false} ItemsParse(items: seq<Value>, s: string, i: nat, depth: nat)
    requires items != [] && WfItems(items, depth + 1)
    requires Same(PrintItems(items), 0, s, i, |PrintItems(items)|)
    ensures i <= |s| && ParseItems(s, i, depth) == Ok(items, i + |PrintItems(items)|)
    decreases items, 0
  {
    hide Same, ParseItem, Wf, Print;
    var v := items[0];
    var a := Print(v);
    var rest := if |items| == 1 then "]" else "," + PrintItems(items[1..]);
    assert PrintItems(items) == a + rest;
    SameParts(a, rest, s, i);
    var p := i + |a|;
    SameChar(rest, 0, s, p, |rest|, 0);
    ItemParses(v, s, i, depth);
    if |items| == 1 {
      assert items == [v];
    } else {
      SameParts(",", PrintItems(items[1..]), s, p);
      ItemsParse(items[1..], s, p + 1, depth);
      assert items == [v] + items[1..];
    }
  }

  lemma KeyParses(m: Member, s: string, i: nat, seen: set<seq<int>>)
    requires WfKey(m) && Key(m) !in seen
    requires Same(m.keyRaw, 0, s, i, |m.keyRaw|)
    requires var c := i + |m.keyRaw|; c < |s| && s[c] == ':' && (c + 1 == |s| || !IsWs(s[c + 1]))
    ensures ParseKey(s, i, seen) == Ok((m.keyRaw, m.units), i + |m.keyRaw| + 1)
  {
    hide ParseString, Same;
    SameExact(m.keyRaw, s, i);
    StringParses(m.keyRaw, m.units, s, i);
  }

  lemma {:induction false} MemberParses(m: Member, s: string, i: nat, depth: nat, seen: set<seq<int>>)
    requires WfMember(m, depth + 1) && Key(m) !in seen
    requires Same(PrintMember(m), 0, s, i, |PrintMember(m)|)
    requires var p := i + |PrintMember(m)|; p < |s| && (s[p] == ',' || s[p] == '}')
    ensures i <= |s| && ParseMember(s, i, depth, seen) == Ok(m, i + |PrintMember(m)|)
    decreases m
  {
    hide Same, ParseValue, Wf, ParseKey, WfKey;
    var a, b := m.keyRaw, Print(m.val);
    PrintHead(m.val, depth + 1);
    assert PrintMember(m) == a + (":" + b);
    SameParts(a, ":" + b, s, i);
    SameChar(":" + b, 0, s, i + |a|, 1 + |b|, 0);
    SameParts(":", b, s, i + |a|);
    SameChar(b, 0, s, i + |a| + 1, |b|, 0);
    KeyParses(m, s, i, seen);
    PrintParses(m.val, s, i + |a| + 1, depth + 1);
  }

  lemma {:induction false} MembersParse(members: seq<Member>, s: string, i: nat, depth: nat, seen: set<seq<int>>)
    requires members != [] && WfMembers(members, depth + 1, seen)
    requires Same(PrintMembers(members), 0, s, i, |PrintMembers(members)|)
    ensures i <= |s| && ParseMembers(s, i, depth, seen) == Ok(members, i + |PrintMembers(members)|)
    decreases members, 0
  {
    hide Same, ParseMember, WfMember;
    var m := members[0];
    var a := PrintMember(m);
    var rest := if |members| == 1 then "}" else "," + PrintMembers(members[1..]);
    assert PrintMembers(members) == a + rest;
    SameParts(a, rest, s, i);
    var p := i + |a|;
    SameChar(rest, 0, s, p, |rest|, 0);
    MemberParses(m, s, i, depth, seen);
    if |members| == 1 {
      assert members == [m];
    } else {
      SameParts(",", PrintMembers(members[1..]), s, p);
      MembersParse(members[1..], s, p + 1, depth, seen + {Key(m)});
      assert members == [m] + members[1..];
    }
  }

  /** The tokenizer undoes the printer. */
  lemma PrintRoundTrip(v: Value)
    requires Wf(v, 0)
    ensures ParseLine(Print(v)) == Ok(v, |Print(v)|)
  {
    hide Wf, ParseValue;
    var s := Print(v);
    PrintHead(v, 0);
    SameSlice(s, 0, s, 0, |s|);
    PrintParses(v, s, 0, 0);
  }

  lemma ParsedLineWf(s: string)
    requires ParseLine(s).Ok?
    ensures Wf(ParseLine(s).value, 0)
  {
    ParsedWf(s, WsEnd(s, 0), 0);
  }
}
