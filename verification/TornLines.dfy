/** What a hard kill leaves: a written record cut at any byte does not parse, and is no duplicate either, so a
    file cut anywhere verifies up to a torn tail (src/audit/file-sink.ts:425-440). */
module TornLines {
  import opened Wrappers
  import opened Text
  import opened JsonLexer
  import opened JsonTokenizer
  import opened JsonPrinter

  // ----- more text behind a lexeme does not change it

  lemma {:induction false} WsKept(s: string, u: string, i: nat)
    requires s <= u && i <= |s| && WsEnd(s, i) < |s|
    ensures WsEnd(u, i) == WsEnd(s, i)
    decreases |s| - i
  {
    if IsWs(s[i]) { WsKept(s, u, i + 1); }
  }

  lemma {:induction false} DigitsKept(s: string, u: string, i: nat)
    requires s <= u && i <= |s| && DigitsEnd(s, i) < |s|
    ensures DigitsEnd(u, i) == DigitsEnd(s, i)
    decreases |s| - i
  {
    if IsDigit(s[i]) { DigitsKept(s, u, i + 1); }
  }

  lemma IntKept(s: string, u: string, i: nat)
    requires s <= u && i <= |s| && IntEnd(s, i).Some? && IntEnd(s, i).value < |s|
    ensures IntEnd(u, i) == IntEnd(s, i)
  {
    if '1' <= s[i] <= '9' { DigitsKept(s, u, i + 1); }
  }

  lemma FracKept(s: string, u: string, i: nat)
    requires s <= u && i <= |s| && FracEnd(s, i).Some? && FracEnd(s, i).value < |s|
    ensures FracEnd(u, i) == FracEnd(s, i)
  {
    if s[i] == '.' { DigitsKept(s, u, i + 1); }
  }

  lemma ExpKept(s: string, u: string, i: nat)
    requires s <= u && i <= |s| && ExpEnd(s, i).Some? && ExpEnd(s, i).value < |s|
    ensures ExpEnd(u, i) == ExpEnd(s, i)
  {
    if s[i] == 'e' || s[i] == 'E' {
      var k := if s[i + 1] == '+' || s[i + 1] == '-' then i + 2 else i + 1;
      DigitsKept(s, u, k);
    }
  }

  lemma NumberKept(s: string, u: string, i: nat)
    requires s <= u && i < |s| && NumberEnd(s, i).Some? && NumberEnd(s, i).value < |s|
    ensures NumberEnd(u, i) == NumberEnd(s, i)
  {
    hide IntEnd, FracEnd, ExpEnd;
    var m := if s[i] == '-' then i + 1 else i;
    IntKept(s, u, m);
    var n := IntEnd(s, m).value;
    FracKept(s, u, n);
    ExpKept(s, u, FracEnd(s, n).value);
  }

  lemma BodyKept(s: string, u: string, i: nat)
    requires s <= u && i <= |s| && StringBody(s, i).Some?
    ensures StringBody(u, i) == StringBody(s, i)
  {
    hide StringBody, Same;
    var e := StringBody(s, i).value.end;
    assert s[i..e] == u[i..e];
    SameSlice(s, i, u, i, e - i);
    StringLocal(s, i, u, i);
  }

  lemma StringKept(s: string, u: string, i: nat)
    requires s <= u && i <= |s| && ParseString(s, i).Ok?
    ensures ParseString(u, i) == ParseString(s, i)
  {
    hide StringBody;
    BodyKept(s, u, i + 1);
  }

  // ----- nor a value, nor a repeated key

  /** A parse that ended before the text did, or on a repeated key. */
  predicate Settled<T>(p: Parsed<T>, s: string) { match p case Ok(_, e) => e < |s| case Err(e) => e == DupKey }

  lemma ScalarKept(s: string, u: string, i: nat)
    requires s <= u && i < |s| && Settled(ParseScalar(s, i), s)
    ensures ParseScalar(u, i) == ParseScalar(s, i)
  {
    hide StringBody, NumberEnd;
    var c := s[i];
    if c == '"' {
      StringKept(s, u, i);
    } else if c == '-' || IsDigit(c) {
      NumberKept(s, u, i);
    }
    if ParseScalar(s, i).Ok? {
      var e := ParseScalar(s, i).end;
      assert s[i..e] == u[i..e];
    }
  }

  lemma {:induction false} ValueKept(s: string, u: string, i: nat, depth: nat)
    requires s <= u && i <= |s|
    requires Settled(ParseValue(s, i, depth), s) || (i < |s| && s[i] == '{' && ParseValue(s, i, depth).Ok?)
    ensures ParseValue(u, i, depth) == ParseValue(s, i, depth)
    decreases |s| - i, 2
  {
    hide ParseScalar, ParseMembers, ParseItems;
    NoneThere(s, depth);
    if s[i] == '{' {
      var w := WsEnd(s, i + 1);
      WsKept(s, u, i + 1);
      if s[w] != '}' { MembersKept(s, u, w, depth, {}); }
    } else if s[i] == '[' {
      var w := WsEnd(s, i + 1);
      WsKept(s, u, i + 1);
      if s[w] != ']' { ItemsKept(s, u, w, depth); }
    } else {
      ScalarKept(s, u, i);
    }
  }

  lemma NothingThere(s: string, depth: nat)
    ensures ParseValue(s, |s|, depth) == Err(Syntax)
  {
  }

  lemma NoneThere(s: string, depth: nat)
    ensures ParseMembers(s, |s|, depth, {}) == Err(Syntax) && ParseItems(s, |s|, depth) == Err(Syntax)
  {
    assert WsEnd(s, |s|) == |s|;
    assert ParseMember(s, |s|, depth, {}) == Err(Syntax);
    assert ParseItem(s, |s|, depth) == Err(Syntax);
  }

  lemma KeyKept(s: string, u: string, i: nat, seen: set<seq<int>>)
    requires s <= u && i <= |s| && Settled(ParseKey(s, i, seen), s)
    ensures ParseKey(u, i, seen) == ParseKey(s, i, seen)
  {
    hide StringBody, Runes;
    var w := WsEnd(s, i);
    WsKept(s, u, i);
    StringKept(s, u, w);
    var q := ParseString(s, w).end;
    assert s[w..q] == u[w..q];
    if ParseKey(s, i, seen).Ok? {
      WsKept(s, u, q);
      WsKept(s, u, WsEnd(s, q) + 1);
    }
  }

  lemma {:induction false} MemberKept(s: string, u: string, i: nat, depth: nat, seen: set<seq<int>>)
    requires s <= u && i <= |s| && Settled(ParseMember(s, i, depth, seen), s)
    ensures ParseMember(u, i, depth, seen) == ParseMember(s, i, depth, seen)
    decreases |s| - i, 3
  {
    hide ParseKey, ParseValue;
    NothingThere(s, depth + 1);
    KeyKept(s, u, i, seen);
    if ParseKey(s, i, seen).Ok? {
      var k := ParseKey(s, i, seen).end;
      ValueKept(s, u, k, depth + 1);
      if ParseValue(s, k, depth + 1).Ok? { WsKept(s, u, ParseValue(s, k, depth + 1).end); }
    }
  }

  lemma {:induction false} MembersKept(s: string, u: string, i: nat, depth: nat, seen: set<seq<int>>)
    requires s <= u && i <= |s|
    requires ParseMembers(s, i, depth, seen).Ok? || ParseMembers(s, i, depth, seen) == Err(DupKey)
    ensures ParseMembers(u, i, depth, seen) == ParseMembers(s, i, depth, seen)
    decreases |s| - i, 4
  {
    hide ParseMember;
    MemberKept(s, u, i, depth, seen);
    if ParseMember(s, i, depth, seen).Ok? {
      var Ok(m, p) := ParseMember(s, i, depth, seen);
      if s[p] == ',' { MembersKept(s, u, p + 1, depth, seen + {Key(m)}); }
    }
  }

  lemma {:induction false} ItemKept(s: string, u: string, i: nat, depth: nat)
    requires s <= u && i <= |s| && Settled(ParseItem(s, i, depth), s)
    ensures ParseItem(u, i, depth) == ParseItem(s, i, depth)
    decreases |s| - i, 3
  {
    hide ParseValue;
    var w := WsEnd(s, i);
    NothingThere(s, depth + 1);
    WsKept(s, u, i);
    ValueKept(s, u, w, depth + 1);
    if ParseValue(s, w, depth + 1).Ok? { WsKept(s, u, ParseValue(s, w, depth + 1).end); }
  }

  lemma {:induction false} ItemsKept(s: string, u: string, i: nat, depth: nat)
    requires s <= u && i <= |s|
    requires ParseItems(s, i, depth).Ok? || ParseItems(s, i, depth) == Err(DupKey)
    ensures ParseItems(u, i, depth) == ParseItems(s, i, depth)
    decreases |s| - i, 4
  {
    hide ParseItem;
    ItemKept(s, u, i, depth);
    if ParseItem(s, i, depth).Ok? {
      var Ok(v, p) := ParseItem(s, i, depth);
      if s[p] == ',' { ItemsKept(s, u, p + 1, depth); }
    }
  }

  /** No proper beginning of the text of an object parses, and none is refused for a repeated key. */
  lemma CutFails(v: Value, k: nat)
    requires v.Obj? && Wf(v, 0) && k < |Print(v)|
    ensures ParseLine(Print(v)[..k]) == Err(Syntax)
  {
    hide ParseValue, PrintMembers, WfMembers;
    var u := Print(v);
    var s := u[..k];
    SameSlice(u, 0, u, 0, |u|);
    PrintParses(v, u, 0, 0);
    if k > 0 {
      assert s[0] == u[0] == '{';
      WholeHead(s);
      if ParseValue(s, 0, 0) != Err(Syntax) { ValueKept(s, u, 0, 0); }
    } else {
      EmptyFails();
    }
  }

  lemma WholeHead(s: string)
    requires s != "" && s[0] == '{'
    ensures WsEnd(s, 0) == 0
  {
  }

  lemma EmptyFails()
    ensures ParseLine("") == Err(Syntax)
  {
  }
}
