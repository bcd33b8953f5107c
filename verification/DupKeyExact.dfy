/** The duplicate-key scanner is exact on every well-formed line (sections 2 to 7 of RFC 8259). */
module DupKeyExact {
  import opened Wrappers
  import opened JsonLexer
  import opened DupKey
  import opened Slices
  import NumberGrammar

  // ----- well-formed lines, whitespace included

  datatype Node =
    | Atom(raw: string)
    | Str(raw: string)
    | List(pad: string, elems: seq<Elem>)
    | Dict(pad: string, members: seq<Mem>)

  datatype Elem = Elem(before: string, node: Node, after: string)

  datatype Mem = Mem(before: string, key: string, colon: string, space: string, node: Node, after: string)

  /** Space, tab, line feed and carriage return. */
  predicate Ws(w: string) { forall i | 0 <= i < |w| :: w[i] == ' ' || w[i] == '\t' || w[i] == '\n' || w[i] == '\r' }

  ghost predicate IsAtom(raw: string) { raw == "true" || raw == "false" || raw == "null" || NumberGrammar.Spelled(raw) }

  ghost predicate WfElem(e: Elem) { Ws(e.before) && Ws(e.after) && Wf(e.node) }

  ghost predicate WfMem(m: Mem) {
    Ws(m.before) && Ws(m.colon) && Ws(m.space) && Ws(m.after) && Decode(m.key).Some? && Wf(m.node)
  }

  ghost predicate Wf(c: Node) {
    match c
    case Atom(raw) => IsAtom(raw)
    case Str(raw) => Decode(raw).Some?
    case List(pad, elems) => Ws(pad) && WfElems(elems)
    case Dict(pad, members) => Ws(pad) && WfMems(members)
  }

  ghost predicate WfElems(elems: seq<Elem>) { elems != [] ==> WfElem(elems[0]) && WfElems(elems[1..]) }

  ghost predicate WfMems(members: seq<Mem>) { members != [] ==> WfMem(members[0]) && WfMems(members[1..]) }

  function Source(c: Node): string {
    match c
    case Atom(raw) => raw
    case Str(raw) => raw
    case List(pad, elems) => "[" + (if elems == [] then pad + "]" else ElemsSource(elems))
    case Dict(pad, members) => "{" + (if members == [] then pad + "}" else MemsSource(members))
  }

  function ElemsSource(elems: seq<Elem>): string
    requires elems != []
  {
    var e := elems[0];
    (e.before + Source(e.node)) + (e.after + (if |elems| == 1 then "]" else "," + ElemsSource(elems[1..])))
  }

  function MemsSource(members: seq<Mem>): string
    requires members != []
  {
    var m := members[0];
    m.before + (m.key + (m.colon + (":" + ((m.space + Source(m.node))
      + (m.after + (if |members| == 1 then "}" else "," + MemsSource(members[1..])))))))
  }

  // ----- duplicates in the tree

  function KeyOf(m: Mem): KeyUnits
    requires WfMem(m)
  {
    Decode(m.key).value
  }

  /** Some object, at any depth, has two members with equal decoded keys. */
  ghost predicate HasDuplicate(c: Node)
    requires Wf(c)
    decreases c
  {
    match c
    case Atom(_) => false
    case Str(_) => false
    case List(_, elems) => AnyElem(elems)
    case Dict(_, members) => RepeatsKey(members) || AnyMem(members)
  }

  /** Some element's value has one. */
  ghost predicate AnyElem(elems: seq<Elem>)
    requires WfElems(elems)
    decreases elems, 0
  {
    elems != [] && (assert WfElem(elems[0]); HasDuplicate(elems[0].node) || AnyElem(elems[1..]))
  }

  ghost predicate AnyMem(members: seq<Mem>)
    requires WfMems(members)
    decreases members, 0
  {
    members != [] && (assert WfMem(members[0]); HasDuplicate(members[0].node) || AnyMem(members[1..]))
  }

  predicate RepeatsKey(members: seq<Mem>) {
    exists i, j :: 0 <= i < j < |members| && Decode(members[i].key) == Decode(members[j].key)
  }

  lemma {:induction false} WfMemAt(members: seq<Mem>, i: nat)
    requires WfMems(members) && i < |members|
    ensures WfMem(members[i])
  {
    if i > 0 { WfMemAt(members[1..], i - 1); }
  }

  /** The first duplicate in reading order. */
  function FirstDuplicate(c: Node): Option<KeyUnits>
    requires Wf(c)
  {
    match c
    case Atom(_) => None
    case Str(_) => None
    case List(_, elems) => FirstInElems(elems)
    case Dict(_, members) => FirstInMems(members, {})
  }

  function FirstInElems(elems: seq<Elem>): Option<KeyUnits>
    requires WfElems(elems)
  {
    if elems == [] then None
    else
      assert WfElem(elems[0]);
      if FirstDuplicate(elems[0].node).Some? then FirstDuplicate(elems[0].node)
      else FirstInElems(elems[1..])
  }

  function FirstInMems(members: seq<Mem>, seen: set<KeyUnits>): Option<KeyUnits>
    requires WfMems(members)
  {
    if members == [] then None
    else
      var key := KeyOf(members[0]);
      if key in seen then Some(key)
      else if FirstDuplicate(members[0].node).Some? then FirstDuplicate(members[0].node)
      else FirstInMems(members[1..], seen + {key})
  }

  lemma {:induction false} FirstExactly(c: Node)
    requires Wf(c)
    ensures FirstDuplicate(c).Some? <==> HasDuplicate(c)
    decreases c, 1
  {
    match c
    case Atom(_) =>
    case Str(_) =>
    case List(_, elems) => FirstElemsExactly(elems);
    case Dict(_, members) =>
      FirstMemsExactly(members, {});
  }

  lemma {:induction false} FirstElemsExactly(elems: seq<Elem>)
    requires WfElems(elems)
    ensures FirstInElems(elems).Some? <==> AnyElem(elems)
    decreases elems, 0
  {
    if elems != [] {
      FirstExactly(elems[0].node);
      FirstElemsExactly(elems[1..]);
    }
  }

  predicate KeySeen(members: seq<Mem>, seen: set<KeyUnits>, j: nat)
    requires j < |members|
  {
    Decode(members[j].key).Some? && Decode(members[j].key).value in seen
  }

  lemma {:induction false} FirstMemsExactly(members: seq<Mem>, seen: set<KeyUnits>)
    requires WfMems(members)
    ensures FirstInMems(members, seen).Some?
       <==> RepeatsKey(members) || (exists j :: 0 <= j < |members| && KeySeen(members, seen, j))
            || AnyMem(members)
    decreases members, 0
  {
    hide Decode;
    if members != [] {
      var key, rest := KeyOf(members[0]), members[1..];
      FirstExactly(members[0].node);
      FirstMemsExactly(rest, seen + {key});
      MemsStep(members, seen);
    }
  }

  /** Keys repeated or seen before: the first member, then the rest with its key seen too. */
  lemma MemsStep(members: seq<Mem>, seen: set<KeyUnits>)
    requires members != [] && WfMems(members)
    ensures var key, rest := KeyOf(members[0]), members[1..];
            RepeatsKey(members) || (exists j :: 0 <= j < |members| && KeySeen(members, seen, j))
            <==> key in seen || RepeatsKey(rest) || (exists j :: 0 <= j < |rest| && KeySeen(rest, seen + {key}, j))
  {
    hide Decode, Wf;
    var key, rest := KeyOf(members[0]), members[1..];
    if RepeatsKey(members) {
      var i, j :| 0 <= i < j < |members| && Decode(members[i].key) == Decode(members[j].key);
      WfMemAt(members, j);
      if i == 0 { assert KeySeen(rest, seen + {key}, j - 1); } else { assert rest[i - 1] == members[i] && rest[j - 1] == members[j]; }
    }
    if j :| 0 <= j < |members| && KeySeen(members, seen, j) {
      if j > 0 { assert KeySeen(rest, seen + {key}, j - 1); }
    }
    if key in seen { assert KeySeen(members, seen, 0); }
    if RepeatsKey(rest) {
      var i, j :| 0 <= i < j < |rest| && Decode(rest[i].key) == Decode(rest[j].key);
      assert members[i + 1] == rest[i] && members[j + 1] == rest[j];
    }
    if j :| 0 <= j < |rest| && KeySeen(rest, seen + {key}, j) {
      assert members[j + 1] == rest[j];
      if Decode(rest[j].key).value in seen { assert KeySeen(members, seen, j + 1); } else {
        assert Decode(members[0].key) == Decode(members[j + 1].key);
      }
    }
  }

  // ----- text at a cursor

  predicate Stops(line: string, e: nat) { e <= |line| && (e < |line| ==> !IsWs(line[e])) }

  lemma {:induction false} SkipsWs(line: string, i: nat, w: string)
    requires At(line, i, w) && Ws(w) && Stops(line, i + |w|)
    ensures SkipSpace(line, i) == i + |w|
    decreases |w|
  {
    if w != "" {
      AtIndex(line, i, w, 0);
      assert [w[0]] + w[1..] == w;
      AtConcat(line, i, [w[0]], w[1..]);
      SkipsWs(line, i + 1, w[1..]);
    }
  }

  // ----- lexemes

  lemma AtomPlain(raw: string)
    requires IsAtom(raw)
    ensures raw != "" && (forall k | 0 <= k < |raw| :: !Structural(raw[k])) && raw[0] != '{' && raw[0] != '[' && raw[0] != '"'
  {
    hide NumberEnd, NumberGrammar.Spelled;
    NumberGrammar.NumberExactly(raw);
    if raw != "true" && raw != "false" && raw != "null" {
      forall k | 0 <= k < |raw|
        ensures !Structural(raw[k])
      {
        NumberPlain(raw, k);
      }
    }
  }

  /** A structural character follows, or nothing. */
  predicate Follows(line: string, e: nat) { e <= |line| && (e < |line| ==> Structural(line[e])) }

  lemma {:induction false} AtomEnds(line: string, i: nat, raw: string)
    requires At(line, i, raw) && (forall k | 0 <= k < |raw| :: !Structural(raw[k])) && Follows(line, i + |raw|)
    ensures AtomEnd(line, i) == i + |raw|
    decreases |raw|
  {
    if raw != "" {
      AtIndex(line, i, raw, 0);
      assert [raw[0]] + raw[1..] == raw;
      AtConcat(line, i, [raw[0]], raw[1..]);
      AtomEnds(line, i + 1, raw[1..]);
    }
  }

  /** From any element of a string literal, the scan for the closing quote ends where decoding does. */
  lemma {:induction false} StringEnds(line: string, i: nat, raw: string, k: nat)
    requires At(line, i, raw) && k <= |raw| && KeyBody(raw, k).Some?
    ensures StringEnd(line, i + k) == (true, i + |raw|)
    decreases |raw| - k
  {
    hide At;
    AtIndex(line, i, raw, k);
    if raw[k] != '"' {
      var e := KeyElement(raw, k).value.1;
      if raw[k] == '\\' {
        AtIndex(line, i, raw, k + 1);
        if raw[k + 1] == 'u' { HexScanned(line, i, raw, k + 2); }
      }
      StringEnds(line, i, raw, e);
    }
  }

  lemma HexScanned(line: string, i: nat, raw: string, k: nat)
    requires At(line, i, raw) && k >= 1 && Hex4(raw, k - 1).Some?
    ensures StringEnd(line, i + k) == StringEnd(line, i + k + 4)
  {
    hide At;
    AtIndex(line, i, raw, k);
    AtIndex(line, i, raw, k + 1);
    AtIndex(line, i, raw, k + 2);
    AtIndex(line, i, raw, k + 3);
    assert StringEnd(line, i + k) == StringEnd(line, i + k + 1);
    assert StringEnd(line, i + k + 1) == StringEnd(line, i + k + 2);
    assert StringEnd(line, i + k + 2) == StringEnd(line, i + k + 3);
  }

  lemma ReadsString(line: string, i: nat, raw: string)
    requires At(line, i, raw) && Decode(raw).Some?
    ensures ReadString(line, i) == (Some(raw), i + |raw|)
  {
    AtIndex(line, i, raw, 0);
    StringEnds(line, i, raw, 1);
  }

  // ----- scanning the text of a tree

  lemma SourceHead(c: Node)
    requires Wf(c)
    ensures Source(c) != "" && !IsWs(Source(c)[0]) && !Structural(Source(c)[0])
    ensures c.List? <==> Source(c)[0] == '['
    ensures c.Dict? <==> Source(c)[0] == '{'
    ensures c.Str? <==> Source(c)[0] == '"'
  {
    if c.Atom? { AtomPlain(c.raw); }
  }

  /** A step finds the first duplicate of a tree, or passes over its text. */
  ghost predicate Scanned(r: Scan, first: Option<KeyUnits>, end: nat) {
    match first case Some(k) => r.duplicate == Some(k) case None => r == Scan(end, None)
  }

  lemma {:induction false} ScansValue(line: string, i: nat, w: string, c: Node)
    requires Wf(c) && Ws(w) && At(line, i, w + Source(c)) && Follows(line, i + |w| + |Source(c)|)
    ensures Scanned(ScanValue(line, i), FirstDuplicate(c), i + |w| + |Source(c)|)
    decreases c, 3
  {
    hide ScanMembers, ScanItems, ReadString, IsAtom, Decode, At, WfElems, WfMems, Follows, SkipSpace, AtomEnd, Structural, Ws, ElemsSource, MemsSource;
    AtConcat(line, i, w, Source(c));
    SourceHead(c);
    var p := i + |w|;
    AtIndex(line, p, Source(c), 0);
    SkipsWs(line, i, w);
    match c
    case Atom(raw) =>
      AtomPlain(raw);
      AtomEnds(line, p, raw);
    case Str(raw) => ReadsString(line, p, raw);
    case List(pad, elems) => ScansList(line, p, pad, elems);
    case Dict(pad, members) => ScansDict(line, p, pad, members);
  }

  lemma {:induction false} ScansList(line: string, p: nat, pad: string, elems: seq<Elem>)
    requires Ws(pad) && WfElems(elems) && At(line, p, Source(List(pad, elems)))
    ensures var q := SkipSpace(line, p + 1);
            Scanned(if Is(line, q, ']') then Scan(q + 1, None) else ScanItems(line, q), FirstInElems(elems), p + |Source(List(pad, elems))|)
    decreases elems, 2
  {
    hide ScanItems, At, WfElem, SkipSpace, Ws;
    var rest := if elems == [] then pad + "]" else ElemsSource(elems);
    AtConcat(line, p, "[", rest);
    if elems == [] {
      AtConcat(line, p + 1, pad, "]");
      AtIndex(line, p + 1 + |pad|, "]", 0);
      SkipsWs(line, p + 1, pad);
    } else {
      ElemsOpen(line, p + 1, elems);
      ScansItems(line, p + 1, elems);
    }
  }

  /** Skipping space before a list of items lands on the first item, not on a bracket; scanning the items
      from there is scanning them from the start. */
  lemma ElemsOpen(line: string, i: nat, elems: seq<Elem>)
    requires elems != [] && WfElems(elems) && At(line, i, ElemsSource(elems))
    ensures var q := SkipSpace(line, i); !Is(line, q, ']') && ScanItems(line, q) == ScanItems(line, i)
  {
    hide At, ScanMembers, ReadString, Wf;
    var e := elems[0];
    AtConcat(line, i, e.before + Source(e.node), ElemsSource(elems)[|e.before + Source(e.node)|..]);
    assert ElemsSource(elems) == (e.before + Source(e.node)) + ElemsSource(elems)[|e.before + Source(e.node)|..];
    AtConcat(line, i, e.before, Source(e.node));
    SourceHead(e.node);
    AtIndex(line, i + |e.before|, Source(e.node), 0);
    SkipsWs(line, i, e.before);
    SkipTwice(line, i);
  }

  lemma SkipTwice(line: string, i: nat)
    ensures SkipSpace(line, SkipSpace(line, i)) == SkipSpace(line, i)
    ensures ScanValue(line, SkipSpace(line, i)) == ScanValue(line, i)
    ensures ScanItems(line, SkipSpace(line, i)) == ScanItems(line, i)
  {
    hide ScanMembers, ReadString;
    SkipAgain(line, i);
  }

  lemma {:induction false} SkipAgain(line: string, i: nat)
    ensures SkipSpace(line, SkipSpace(line, i)) == SkipSpace(line, i)
    decreases |line| - i
  {
    if i < |line| && IsWs(line[i]) { SkipAgain(line, i + 1); }
  }

  lemma {:induction false} ScansItems(line: string, i: nat, elems: seq<Elem>)
    requires elems != [] && WfElems(elems) && At(line, i, ElemsSource(elems))
    ensures Scanned(ScanItems(line, i), FirstInElems(elems), i + |ElemsSource(elems)|)
    decreases elems, 1
  {
    hide At, ScanValue, Ws, Wf, SkipSpace, Follows;
    var e := elems[0];
    var head := e.before + Source(e.node);
    var last := |elems| == 1;
    var rest := if last then "]" else "," + ElemsSource(elems[1..]);
    AtConcat(line, i, head, e.after + rest);
    AtConcat(line, i + |head|, e.after, rest);
    var t := i + |head| + |e.after|;
    AtIndex(line, t, rest, 0);
    AfterFollows(line, i + |head|, e.after);
    ScansValue(line, i, e.before, e.node);
    SkipsWs(line, i + |head|, e.after);
    if !last {
      AtConcat(line, t, ",", ElemsSource(elems[1..]));
      ScansItems(line, t + 1, elems[1..]);
    }
  }

  /** After a value, whitespace or the structural character behind it follows. */
  lemma AfterFollows(line: string, e: nat, w: string)
    requires At(line, e, w) && Ws(w) && e + |w| < |line| && Structural(line[e + |w|])
    ensures Follows(line, e)
  {
    if w != "" { AtIndex(line, e, w, 0); }
  }

  lemma {:induction false} ScansDict(line: string, p: nat, pad: string, members: seq<Mem>)
    requires Ws(pad) && WfMems(members) && At(line, p, Source(Dict(pad, members)))
    ensures var q := SkipSpace(line, p + 1);
            Scanned(if Is(line, q, '}') then Scan(q + 1, None) else ScanMembers(line, q, {}),
                    FirstInMems(members, {}), p + |Source(Dict(pad, members))|)
    decreases members, 2
  {
    hide ScanMembers, At, WfMem, SkipSpace, Ws;
    var rest := if members == [] then pad + "}" else MemsSource(members);
    AtConcat(line, p, "{", rest);
    if members == [] {
      AtConcat(line, p + 1, pad, "}");
      AtIndex(line, p + 1 + |pad|, "}", 0);
      SkipsWs(line, p + 1, pad);
    } else {
      MemsOpen(line, p + 1, members);
      ScansMembers(line, p + 1, members, {});
    }
  }

  lemma MemsOpen(line: string, i: nat, members: seq<Mem>)
    requires members != [] && WfMems(members) && At(line, i, MemsSource(members))
    ensures var q := SkipSpace(line, i); !Is(line, q, '}') && ScanMembers(line, q, {}) == ScanMembers(line, i, {})
  {
    hide At, ReadString, Wf, ScanValue;
    var m := members[0];
    var rest := MemsSource(members)[|m.before|..];
    assert MemsSource(members) == m.before + rest;
    AtConcat(line, i, m.before, rest);
    assert rest[0] == m.key[0];
    AtIndex(line, i + |m.before|, rest, 0);
    SkipsWs(line, i, m.before);
    SkipAgain(line, i);
  }

  lemma {:induction false} ScansMembers(line: string, i: nat, members: seq<Mem>, seen: set<KeyUnits>)
    requires members != [] && WfMems(members) && At(line, i, MemsSource(members))
    ensures Scanned(ScanMembers(line, i, seen), FirstInMems(members, seen), i + |MemsSource(members)|)
    decreases members, 1
  {
    hide At, ScanValue, Ws, Wf, SkipSpace, Follows, Decode, ReadString, MemsSource, ScanMembers;
    var m := members[0];
    var last := |members| == 1;
    var rest := if last then "}" else "," + MemsSource(members[1..]);
    var body := m.space + Source(m.node);
    MemsSplit(members);
    var a := i + |m.before| + |m.key| + |m.colon| + 1;
    var t := a + |body| + |m.after|;
    ScansKey(line, i, m, body + (m.after + rest));
    ScansBody(line, a, m, rest);
    ScansValue(line, a, m.space, m.node);
    MemberScanned(line, i, m, seen, t);
    if !last {
      AtConcat(line, t, ",", MemsSource(members[1..]));
      ScansMembers(line, t + 1, members[1..], seen + {KeyOf(m)});
    }
  }

  /** The text of members, first member first. */
  lemma MemsSplit(members: seq<Mem>)
    requires members != []
    ensures var m := members[0];
            var rest := if |members| == 1 then "}" else "," + MemsSource(members[1..]);
            MemsSource(members) == m.before + (m.key + (m.colon + (":" + ((m.space + Source(m.node)) + (m.after + rest)))))
  {
    hide Source;
  }

  /** The value of a member and what closes or continues the object. */
  lemma ScansBody(line: string, a: nat, m: Mem, rest: string)
    requires WfMem(m) && rest != "" && Structural(rest[0]) && !IsWs(rest[0])
    requires At(line, a, (m.space + Source(m.node)) + (m.after + rest))
    ensures var e := a + |m.space + Source(m.node)|;
            && At(line, a, m.space + Source(m.node)) && Follows(line, e)
            && SkipSpace(line, e) == e + |m.after| && At(line, e + |m.after|, rest) && Is(line, e + |m.after|, rest[0])
  {
    hide At, Ws, Wf, SkipSpace, Follows, Decode;
    var body := m.space + Source(m.node);
    AtConcat(line, a, body, m.after + rest);
    AtConcat(line, a + |body|, m.after, rest);
    AtIndex(line, a + |body| + |m.after|, rest, 0);
    AfterFollows(line, a + |body|, m.after);
    SkipsWs(line, a + |body|, m.after);
  }

  /** One turn of the member loop, given what its parts do. */
  lemma MemberScanned(line: string, i: nat, m: Mem, seen: set<KeyUnits>, t: nat)
    requires WfMem(m)
    requires var p, q := i + |m.before|, i + |m.before| + |m.key|;
             var r := q + |m.colon|;
             && SkipSpace(line, i) == p && ReadString(line, p) == (Some(m.key), q) && SkipSpace(line, q) == r && Is(line, r, ':')
             && var e := r + 1 + |m.space| + |Source(m.node)|;
                Scanned(ScanValue(line, r + 1), FirstDuplicate(m.node), e) && SkipSpace(line, e) == t
    ensures var r := ScanMembers(line, i, seen);
            if KeyOf(m) in seen then r.duplicate == Some(KeyOf(m))
            else if FirstDuplicate(m.node).Some? then r.duplicate == FirstDuplicate(m.node)
            else r == if Is(line, t, ',') then ScanMembers(line, t + 1, seen + {KeyOf(m)}) else Scan(t + 1, None)
  {
    hide ScanValue, Wf, SkipSpace, Decode, ReadString, FirstDuplicate, Source;
  }

  /** The key of a member and its colon. */
  lemma ScansKey(line: string, i: nat, m: Mem, tail: string)
    requires WfMem(m) && At(line, i, m.before + (m.key + (m.colon + (":" + tail))))
    ensures var p, q := i + |m.before|, i + |m.before| + |m.key|;
            var r := q + |m.colon|;
            && SkipSpace(line, i) == p && ReadString(line, p) == (Some(m.key), q)
            && SkipSpace(line, q) == r && Is(line, r, ':') && At(line, r + 1, tail)
  {
    hide At, Ws, Wf, SkipSpace, ReadString;
    var p, q := i + |m.before|, i + |m.before| + |m.key|;
    var r := q + |m.colon|;
    AtConcat(line, i, m.before, m.key + (m.colon + (":" + tail)));
    AtConcat(line, p, m.key, m.colon + (":" + tail));
    AtConcat(line, q, m.colon, ":" + tail);
    AtConcat(line, r, ":", tail);
    AtIndex(line, p, m.key, 0);
    AtIndex(line, r, ":", 0);
    SkipsWs(line, i, m.before);
    ReadsString(line, p, m.key);
    SkipsWs(line, q, m.colon);
  }

  // ----- main results

  /** On every well-formed line the scanner reports the first duplicate in reading order, and reports one
      exactly when some object at any depth has two members with equal decoded keys. */
  lemma ScannerIsExact(before: string, c: Node, after: string)
    requires Wf(c) && Ws(before) && Ws(after)
    ensures FindDuplicateKey(before + Source(c) + after) == FirstDuplicate(c)
    ensures FindDuplicateKey(before + Source(c) + after).Some? <==> HasDuplicate(c)
  {
    hide Wf, Source, ScanValue, FirstDuplicate;
    var line := before + Source(c) + after;
    var e := |before| + |Source(c)|;
    assert line[0..e] == before + Source(c);
    assert Follows(line, e);
    ScansValue(line, 0, before, c);
    FirstExactly(c);
  }
}
