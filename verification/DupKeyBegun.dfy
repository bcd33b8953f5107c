/** What the duplicate-key scanner reports on lines that need not be JSON: a line it reports begins with a
    begun tree whose next key repeats one already read, and it reports every such line. */
module DupKeyBegun {
  import opened Wrappers
  import opened JsonLexer
  import opened DupKey
  import opened DupKeyExact
  import opened Slices

  // ----- what the scanner takes for a value and passes over

  /** Text up to and including the first quote that no backslash skips. */
  predicate Closes(s: string) {
    s != "" && if s[0] == '"' then |s| == 1 else if s[0] == '\\' then |s| >= 2 && Closes(s[2..]) else Closes(s[1..])
  }

  predicate IsQuoted(raw: string) { raw != "" && raw[0] == '"' && Closes(raw[1..]) }

  /** Anything, or nothing, without a comma, closing bracket or space, and not begun like a string, an object
      or an array. It is never checked to be a number or a literal. */
  predicate IsRun(raw: string) {
    && (forall k | 0 <= k < |raw| :: !Structural(raw[k]))
    && (raw != "" ==> raw[0] != '{' && raw[0] != '[' && raw[0] != '"')
  }

  /** An array or object with something in it ends at whatever stands where a comma could, `close`. An object
      is given up where no key, or no colon after one, follows. */
  datatype Tree =
    | Run(raw: string)
    | Quoted(raw: string)
    | Empty(pad: string)
    | Array(items: seq<Item>, last: Item, close: char)
    | Object(members: seq<Member>, final: Member, close: char)
    | GivenUp(members: seq<Member>, pad: string, key: string)

  datatype Item = Item(before: string, value: Tree, after: string)

  datatype Name = Name(before: string, key: string, colon: string)

  datatype Member = Member(name: Name, item: Item)

  function TreeText(t: Tree): string
    decreases t, 1
  {
    match t
    case Run(raw) => raw
    case Quoted(raw) => raw
    case Empty(pad) => "{" + (pad + "}")
    case Array(items, last, close) => "[" + (ItemsText(items) + (ItemText(last) + [close]))
    case Object(_, _, _) => "{" + BodyText(t)
    case GivenUp(_, _, _) => "{" + BodyText(t)
  }

  /** The text after an object's opening brace. */
  function BodyText(t: Tree): string
    requires t.Object? || t.GivenUp?
    decreases t, 0
  {
    match t
    case Object(members, final, close) => MembersText(members) + (MemberText(final) + [close])
    case GivenUp(members, pad, key) => MembersText(members) + (pad + key)
  }

  function ItemText(x: Item): string { x.before + (TreeText(x.value) + x.after) }

  function NameText(n: Name): string { n.before + (n.key + (n.colon + ":")) }

  function MemberText(m: Member): string { NameText(m.name) + ItemText(m.item) }

  /** Items, a comma after each. */
  function ItemsText(items: seq<Item>): string {
    if items == [] then "" else ItemText(items[0]) + ("," + ItemsText(items[1..]))
  }

  function MembersText(members: seq<Member>): string {
    if members == [] then "" else MemberText(members[0]) + ("," + MembersText(members[1..]))
  }

  /** The tree can stand where `after`, which is spaces, and then `c` follow. */
  predicate Stands(t: Tree, after: string, c: char) {
    match t
    case Run(raw) => IsRun(raw) && (raw == "" || after == "" ==> Structural(c))
    case Quoted(raw) => IsQuoted(raw)
    case Empty(pad) => Ws(pad)
    case Array(items, last, close) => ItemsPass(items) && ItemPasses(last, close) && close != ','
    case Object(members, final, close) => MembersPass(members) && MemberPasses(final, close) && close != ','
    case GivenUp(members, pad, key) => MembersPass(members) && Ws(pad) && Stuck(key, c) && (members == [] && key == "" ==> c != '}')
  }

  /** No member can be read: there is no key, the key does not decode, or no colon follows it. */
  predicate Stuck(key: string, c: char) {
    if key == "" then c != '"' else IsQuoted(key) && (Decode(key).Some? ==> c != ':')
  }

  predicate ItemPasses(x: Item, c: char) { Ws(x.before) && Ws(x.after) && !IsWs(c) && Stands(x.value, x.after, c) }

  predicate IsName(n: Name) { Ws(n.before) && Ws(n.colon) && Decode(n.key).Some? }

  predicate MemberPasses(m: Member, c: char) { IsName(m.name) && ItemPasses(m.item, c) }

  predicate ItemsPass(items: seq<Item>) { items != [] ==> ItemPasses(items[0], ',') && ItemsPass(items[1..]) }

  predicate MembersPass(members: seq<Member>) { members != [] ==> MemberPasses(members[0], ',') && MembersPass(members[1..]) }

  // ----- begun trees

  /** A tree cut off behind a key, every array and object around it still open. */
  datatype Begun =
    | Repeat(members: seq<Member>, pad: string, key: string)
    | InObject(members: seq<Member>, name: Name, space: string, inner: Begun)
    | InArray(items: seq<Item>, space: string, inner: Begun)

  function BegunText(b: Begun): string
    decreases b, 1
  {
    match b
    case InArray(items, space, inner) => "[" + (ItemsText(items) + (space + BegunText(inner)))
    case _ => "{" + OpenText(b)
  }

  function OpenText(b: Begun): string
    requires !b.InArray?
    decreases b, 0
  {
    match b
    case Repeat(members, pad, key) => MembersText(members) + (pad + key)
    case InObject(members, name, space, inner) => MembersText(members) + (NameText(name) + (space + BegunText(inner)))
  }

  predicate HasKey(members: seq<Member>, key: KeyUnits) {
    members != [] && (Decode(members[0].name.key) == Some(key) || HasKey(members[1..], key))
  }

  /** The last key repeats, as decoded, a key already read in its object. */
  predicate Repeats(b: Begun) { RepeatsAfter(b, {}) }

  /** The same when `seen` were read before in the outermost object. */
  predicate RepeatsAfter(b: Begun, seen: set<KeyUnits>) {
    match b
    case Repeat(members, pad, key) =>
      MembersPass(members) && Ws(pad) && Decode(key).Some? && (Decode(key).value in seen || HasKey(members, Decode(key).value))
    case InObject(members, name, space, inner) => MembersPass(members) && IsName(name) && Ws(space) && RepeatsAfter(inner, {})
    case InArray(items, space, inner) => ItemsPass(items) && Ws(space) && RepeatsAfter(inner, {})
  }

  function LastKey(b: Begun): Option<KeyUnits> {
    match b
    case Repeat(_, _, key) => Decode(key)
    case InObject(_, _, _, inner) => LastKey(inner)
    case InArray(_, _, inner) => LastKey(inner)
  }

  // ----- spaces and strings

  lemma {:induction false} SkipStops(line: string, i: nat)
    ensures var e := SkipSpace(line, i);
            i <= |line| ==> e <= |line| && Ws(line[i..e]) && (e < |line| ==> !IsWs(line[e]))
    decreases |line| - i
  {
    if i < |line| && IsWs(line[i]) {
      SkipStops(line, i + 1);
      var e := SkipSpace(line, i);
      assert line[i..e] == [line[i]] + line[i + 1..e];
    }
  }

  lemma {:induction false} ClosesAt(line: string, i: nat, s: string)
    requires At(line, i, s) && Closes(s)
    ensures StringEnd(line, i) == (true, i + |s|)
    decreases |s|
  {
    hide At;
    AtIndex(line, i, s, 0);
    if s[0] == '\\' {
      assert s == s[..2] + s[2..];
      AtConcat(line, i, s[..2], s[2..]);
      ClosesAt(line, i + 2, s[2..]);
    } else if s[0] != '"' {
      assert s == s[..1] + s[1..];
      AtConcat(line, i, s[..1], s[1..]);
      ClosesAt(line, i + 1, s[1..]);
    }
  }

  lemma {:induction false} EndCloses(line: string, i: nat)
    requires StringEnd(line, i).0
    ensures i < StringEnd(line, i).1 <= |line| && Closes(line[i..StringEnd(line, i).1])
    decreases |line| - i
  {
    var s := line[i..StringEnd(line, i).1];
    if line[i] == '\\' {
      EndCloses(line, i + 2);
      assert s[2..] == line[i + 2..StringEnd(line, i).1];
    } else if line[i] != '"' {
      EndCloses(line, i + 1);
      assert s[1..] == line[i + 1..StringEnd(line, i).1];
    }
  }

  lemma ReadsQuotedKey(line: string, i: nat, raw: string)
    requires At(line, i, raw) && IsQuoted(raw)
    ensures ReadString(line, i) == (Some(raw), i + |raw|)
  {
    AtIndex(line, i, raw, 0);
    assert raw == raw[..1] + raw[1..];
    AtConcat(line, i, raw[..1], raw[1..]);
    ClosesAt(line, i + 1, raw[1..]);
  }

  lemma KeyQuoted(line: string, i: nat)
    requires ReadString(line, i).0.Some?
    ensures var (lexeme, e) := ReadString(line, i); IsQuoted(lexeme.value) && At(line, i, lexeme.value) && e == i + |lexeme.value|
  {
    EndCloses(line, i + 1);
    var (lexeme, e) := ReadString(line, i);
    assert lexeme.value[1..] == line[i + 1..e];
  }

  /** A decodable key is a closed string. */
  lemma DecodedQuoted(raw: string)
    requires Decode(raw).Some?
    ensures IsQuoted(raw)
  {
    assert raw[0..|raw|] == raw;
    ReadsString(raw, 0, raw);
    KeyQuoted(raw, 0);
  }

  lemma {:induction false} RunAt(line: string, i: nat)
    requires i <= |line|
    ensures var e := AtomEnd(line, i);
            e <= |line| && (forall k | i <= k < e :: !Structural(line[k])) && (e < |line| ==> Structural(line[e]))
    decreases |line| - i
  {
    if i < |line| && !Structural(line[i]) { RunAt(line, i + 1); }
  }

  lemma {:induction false} SkipOver(line: string, i: nat, w: string)
    requires At(line, i, w) && Ws(w)
    ensures SkipSpace(line, i) == SkipSpace(line, i + |w|)
    decreases |w|
  {
    if w != "" {
      AtIndex(line, i, w, 0);
      assert [w[0]] + w[1..] == w;
      AtConcat(line, i, [w[0]], w[1..]);
      SkipOver(line, i + 1, w[1..]);
    }
  }

  /** Scanning depends on what stands after the spaces. */
  lemma SameSkip(line: string, i: nat, j: nat)
    requires SkipSpace(line, i) == SkipSpace(line, j)
    ensures ScanValue(line, i) == ScanValue(line, j) && ScanItems(line, i) == ScanItems(line, j)
    ensures ScanMembers(line, i, {}) == ScanMembers(line, j, {})
  {
    hide ScanItems, ScanMembers;
    SameValue(line, i, j);
    SameItems(line, i, j);
    SameMembers(line, i, j);
  }

  lemma SameValue(line: string, i: nat, j: nat)
    requires SkipSpace(line, i) == SkipSpace(line, j)
    ensures ScanValue(line, i) == ScanValue(line, j)
  {
    hide ScanItems, ScanMembers, ReadString, SkipSpace, AtomEnd;
  }

  lemma SameItems(line: string, i: nat, j: nat)
    requires ScanValue(line, i) == ScanValue(line, j)
    ensures ScanItems(line, i) == ScanItems(line, j)
  {
    hide ScanValue, SkipSpace;
  }

  lemma SameMembers(line: string, i: nat, j: nat)
    requires SkipSpace(line, i) == SkipSpace(line, j)
    ensures ScanMembers(line, i, {}) == ScanMembers(line, j, {})
  {
    hide ScanValue, SkipSpace, ReadString, Decode;
  }

  // ----- scanning over trees

  /** The scan of a value reports something before `e`, or goes on behind the spaces at `e`. */
  predicate Over(line: string, r: Scan, e: nat) { if r.duplicate.Some? then r.at <= e else SkipSpace(line, r.at) == e }

  lemma {:induction false} PassesItem(line: string, i: nat, x: Item, c: char)
    requires ItemPasses(x, c) && At(line, i, ItemText(x)) && Is(line, i + |ItemText(x)|, c)
    ensures Over(line, ScanValue(line, i), i + |ItemText(x)|)
    decreases x, 3
  {
    hide At, Stands, ScanValue, ScanItems, ScanMembers, TreeText;
    AtConcat(line, i, x.before, TreeText(x.value) + x.after);
    var p := i + |x.before|;
    AtConcat(line, p, TreeText(x.value), x.after);
    SkipOver(line, i, x.before);
    SameSkip(line, i, p);
    PassesTree(line, p, x.value, x.after, c);
  }

  lemma {:induction false} PassesTree(line: string, p: nat, t: Tree, after: string, c: char)
    requires Stands(t, after, c) && Ws(after) && !IsWs(c)
    requires At(line, p, TreeText(t)) && At(line, p + |TreeText(t)|, after) && Is(line, p + |TreeText(t)| + |after|, c)
    ensures Over(line, ScanValue(line, p), p + |TreeText(t)| + |after|)
    decreases t, 2
  {
    hide At, ReadString, ScanItems, ScanMembers, Ws, ItemsText, ItemText, BodyText, Decode, IsQuoted, IsRun, Structural, SkipSpace,
      AtomEnd, ItemsPass, MembersPass, ItemPasses, MemberPasses, Stuck;
    var end := p + |TreeText(t)|;
    SkipsWs(line, end, after);
    match t
    case Run(raw) => PassesRun(line, p, raw, after, c);
    case Quoted(raw) => PassesQuoted(line, p, raw);
    case Empty(pad) => PassesEmpty(line, p, pad);
    case Array(items, last, close) =>
      AtConcat(line, p, "[", ItemsText(items) + (ItemText(last) + [close]));
      AtIndex(line, p, "[", 0);
      SkipNothing(line, p);
      PassesArray(line, p + 1, t);
    case Object(members, final, close) =>
      AtConcat(line, p, "{", BodyText(t));
      AtIndex(line, p, "{", 0);
      SkipNothing(line, p);
      PassesObject(line, p + 1, t);
    case GivenUp(members, pad, key) =>
      AtConcat(line, p, "{", BodyText(t));
      AtIndex(line, p, "{", 0);
      SkipNothing(line, p);
      PassesGivenUp(line, p + 1, t, after, c);
  }

  lemma PassesQuoted(line: string, p: nat, raw: string)
    requires IsQuoted(raw) && At(line, p, raw)
    ensures ScanValue(line, p) == Scan(p + |raw|, None)
  {
    hide At, ReadString, ScanItems, ScanMembers, Closes;
    AtIndex(line, p, raw, 0);
    ReadsQuotedKey(line, p, raw);
    SkipNothing(line, p);
  }

  lemma PassesEmpty(line: string, p: nat, pad: string)
    requires Ws(pad) && At(line, p, "{" + (pad + "}"))
    ensures ScanValue(line, p) == Scan(p + |pad| + 2, None)
  {
    hide At, ReadString, ScanItems, ScanMembers, Ws;
    AtConcat(line, p, "{", pad + "}");
    AtConcat(line, p + 1, pad, "}");
    AtIndex(line, p, "{", 0);
    AtIndex(line, p + 1 + |pad|, "}", 0);
    SkipNothing(line, p);
    SkipsWs(line, p + 1, pad);
  }

  lemma SkipNothing(line: string, p: nat)
    requires p < |line| && !IsWs(line[p])
    ensures SkipSpace(line, p) == p
  {
  }

  lemma PassesRun(line: string, p: nat, raw: string, after: string, c: char)
    requires IsRun(raw) && (raw == "" || after == "" ==> Structural(c)) && Ws(after) && !IsWs(c)
    requires At(line, p, raw) && At(line, p + |raw|, after) && Is(line, p + |raw| + |after|, c)
    ensures Over(line, ScanValue(line, p), p + |raw| + |after|)
  {
    hide At, ReadString, ScanItems, ScanMembers;
    SkipsWs(line, p + |raw|, after);
    SkipNothing(line, p + |raw| + |after|);
    if raw == "" {
      assert AtomEnd(line, p + |after|) == p + |after|;
    } else {
      AtIndex(line, p, raw, 0);
      SkipNothing(line, p);
      if after != "" { AtIndex(line, p + |raw|, after, 0); }
      AtomEnds(line, p, raw);
    }
  }

  lemma {:induction false} PassesItems(line: string, i: nat, items: seq<Item>)
    requires ItemsPass(items) && At(line, i, ItemsText(items))
    ensures var r, e := ScanItems(line, i), i + |ItemsText(items)|; (r.duplicate.Some? && r.at <= e) || r == ScanItems(line, e)
    decreases items, 0
  {
    hide At, ItemText, ScanValue, ItemPasses, SkipSpace;
    if items != [] {
      var x, rest := items[0], "," + ItemsText(items[1..]);
      AtConcat(line, i, ItemText(x), rest);
      var t := i + |ItemText(x)|;
      AtConcat(line, t, ",", ItemsText(items[1..]));
      AtIndex(line, t, ",", 0);
      PassesItem(line, i, x, ',');
      PassesItems(line, t + 1, items[1..]);
    }
  }

  lemma {:induction false} PassesMembers(line: string, i: nat, members: seq<Member>, seen: set<KeyUnits>) returns (all: set<KeyUnits>)
    requires MembersPass(members) && At(line, i, MembersText(members))
    ensures seen <= all && forall key | HasKey(members, key) :: key in all
    ensures var r, e := ScanMembers(line, i, seen), i + |MembersText(members)|;
            (r.duplicate.Some? && r.at <= e) || r == ScanMembers(line, e, all)
    decreases members, 0
  {
    hide At, MemberText, ScanMembers, MemberPasses, SkipSpace, Decode;
    all := seen;
    if members != [] {
      var m, rest := members[0], "," + MembersText(members[1..]);
      AtConcat(line, i, MemberText(m), rest);
      var t := i + |MemberText(m)|;
      AtConcat(line, t, ",", MembersText(members[1..]));
      AtIndex(line, t, ",", 0);
      PassesMember(line, i, m, ',', seen);
      all := PassesMembers(line, t + 1, members[1..], seen + {KeyRead(m)});
    }
  }

  function KeyRead(m: Member): KeyUnits { match Decode(m.name.key) case Some(k) => k case None => [] }

  /** One member before `c`: its key or its value is reported, or the scan goes on as `c` tells it. */
  lemma {:induction false} PassesMember(line: string, i: nat, m: Member, c: char, seen: set<KeyUnits>)
    requires MemberPasses(m, c) && At(line, i, MemberText(m)) && Is(line, i + |MemberText(m)|, c)
    ensures Decode(m.name.key) == Some(KeyRead(m))
    ensures var r, e := ScanMembers(line, i, seen), i + |MemberText(m)|;
            || (r.duplicate.Some? && r.at <= e)
            || r == if c == ',' then ScanMembers(line, e + 1, seen + {KeyRead(m)}) else Scan(e + 1, None)
    decreases m, 4
  {
    hide At, ItemText, ScanValue, ItemPasses, SkipSpace, Decode, ReadString, Ws, NameText;
    AtConcat(line, i, NameText(m.name), ItemText(m.item));
    ReadsName(line, i, m.name);
    PassesItem(line, i + |NameText(m.name)|, m.item, c);
  }

  lemma ReadsName(line: string, i: nat, n: Name)
    requires IsName(n) && At(line, i, NameText(n))
    ensures var p, q := i + |n.before|, i + |n.before| + |n.key|;
            var r := q + |n.colon|;
            && SkipSpace(line, i) == p && ReadString(line, p) == (Some(n.key), q)
            && SkipSpace(line, q) == r && Is(line, r, ':') && r + 1 == i + |NameText(n)|
  {
    hide At, Ws, SkipSpace, ReadString, Decode, Closes;
    var p, q := i + |n.before|, i + |n.before| + |n.key|;
    var r := q + |n.colon|;
    AtConcat(line, i, n.before, n.key + (n.colon + ":"));
    AtConcat(line, p, n.key, n.colon + ":");
    AtConcat(line, q, n.colon, ":");
    DecodedQuoted(n.key);
    AtIndex(line, p, n.key, 0);
    AtIndex(line, r, ":", 0);
    SkipsWs(line, i, n.before);
    ReadsQuotedKey(line, p, n.key);
    SkipsWs(line, q, n.colon);
  }

  lemma TreeHead(t: Tree, after: string, c: char)
    requires Stands(t, after, c)
    ensures TreeText(t) == "" ==> t == Run("") && Structural(c)
    ensures TreeText(t) != "" ==> !Structural(TreeText(t)[0])
  {
  }

  /** Skipping spaces before an item lands on a closing bracket only when the item is nothing and the bracket
      is what follows it. */
  lemma ItemHead(line: string, i: nat, x: Item, c: char)
    requires ItemPasses(x, c) && At(line, i, ItemText(x)) && Is(line, i + |ItemText(x)|, c)
    ensures var q := SkipSpace(line, i); Is(line, q, ']') ==> q == i + |ItemText(x)| && c == ']'
  {
    hide At, SkipSpace, TreeText, Stands;
    var p, text := i + |x.before|, TreeText(x.value);
    AtConcat(line, i, x.before, text + x.after);
    AtConcat(line, p, text, x.after);
    SkipOver(line, i, x.before);
    TreeHead(x.value, x.after, c);
    if text == "" {
      SkipsWs(line, p, x.after);
    } else {
      AtIndex(line, p, text, 0);
      SkipNothing(line, p);
    }
  }

  /** Scanning a list of items from its first item is scanning it from the start; only an array of nothing
      begins with its bracket. */
  lemma ItemsHead(line: string, i: nat, items: seq<Item>, last: Item, close: char)
    requires ItemsPass(items) && ItemPasses(last, close) && close != ','
    requires At(line, i, ItemsText(items) + (ItemText(last) + [close]))
    ensures var q := SkipSpace(line, i);
            && ScanItems(line, q) == ScanItems(line, i)
            && (Is(line, q, ']') ==> q + 1 == i + |ItemsText(items)| + |ItemText(last)| + 1)
  {
    hide At, ItemText, ItemPasses, ScanValue, ScanItems, SkipSpace;
    AtConcat(line, i, ItemsText(items), ItemText(last) + [close]);
    SkipAgain(line, i);
    SameSkip(line, i, SkipSpace(line, i));
    if items == [] {
      AtConcat(line, i, ItemText(last), [close]);
      AtIndex(line, i + |ItemText(last)|, [close], 0);
      ItemHead(line, i, last, close);
    } else {
      var rest := "," + ItemsText(items[1..]);
      AtConcat(line, i, ItemText(items[0]), rest);
      AtIndex(line, i + |ItemText(items[0])|, rest, 0);
      ItemHead(line, i, items[0], ',');
    }
  }

  lemma {:induction false} PassesArray(line: string, i: nat, t: Tree)
    requires t.Array? && Stands(t, "", ' ') && At(line, i, ItemsText(t.items) + (ItemText(t.last) + [t.close]))
    ensures var q := SkipSpace(line, i);
            var r := if Is(line, q, ']') then Scan(q + 1, None) else ScanItems(line, q);
            var e := i + |ItemsText(t.items)| + |ItemText(t.last)| + 1;
            if r.duplicate.Some? then r.at <= e else r.at == e
    decreases t, 1
  {
    hide At, ItemsText, ItemsPass, ItemText, ItemPasses, ScanValue, SkipSpace;
    var items, last, close := t.items, t.last, t.close;
    var m := i + |ItemsText(items)|;
    AtConcat(line, i, ItemsText(items), ItemText(last) + [close]);
    AtConcat(line, m, ItemText(last), [close]);
    AtIndex(line, m + |ItemText(last)|, [close], 0);
    ItemsHead(line, i, items, last, close);
    PassesItems(line, i, items);
    PassesItem(line, m, last, close);
  }

  /** Skipping spaces before a name lands on its key. */
  lemma NameHead(line: string, i: nat, n: Name)
    requires IsName(n) && At(line, i, NameText(n))
    ensures Is(line, SkipSpace(line, i), '"')
  {
    hide At, SkipSpace, Decode, Closes;
    ReadsName(line, i, n);
    DecodedQuoted(n.key);
    AtConcat(line, i, n.before, n.key + (n.colon + ":"));
    AtConcat(line, i + |n.before|, n.key, n.colon + ":");
    AtIndex(line, i + |n.before|, n.key, 0);
  }

  lemma MembersHead(line: string, i: nat, members: seq<Member>)
    requires members != [] && MembersPass(members) && At(line, i, MembersText(members))
    ensures Is(line, SkipSpace(line, i), '"')
  {
    hide At, SkipSpace, Decode, NameText, ItemText, ItemPasses;
    var m := members[0];
    AtConcat(line, i, MemberText(m), "," + MembersText(members[1..]));
    AtConcat(line, i, NameText(m.name), ItemText(m.item));
    NameHead(line, i, m.name);
  }

  lemma {:induction false} PassesObject(line: string, i: nat, t: Tree)
    requires t.Object? && Stands(t, "", ' ') && At(line, i, BodyText(t))
    ensures var q := SkipSpace(line, i);
            var r := if Is(line, q, '}') then Scan(q + 1, None) else ScanMembers(line, q, {});
            var e := i + |BodyText(t)|;
            if r.duplicate.Some? then r.at <= e else r.at == e
    decreases t, 1
  {
    hide At, MemberText, MemberPasses, ScanMembers, SkipSpace;
    var members, final, close := t.members, t.final, t.close;
    AtConcat(line, i, MembersText(members), MemberText(final) + [close]);
    var m := i + |MembersText(members)|;
    AtConcat(line, m, MemberText(final), [close]);
    AtIndex(line, m + |MemberText(final)|, [close], 0);
    SkipAgain(line, i);
    SameSkip(line, i, SkipSpace(line, i));
    if members == [] { MemberHead(line, i, final, close); } else { MembersHead(line, i, members); }
    var all := PassesMembers(line, i, members, {});
    PassesMember(line, m, final, close, all);
  }

  lemma MemberHead(line: string, i: nat, m: Member, c: char)
    requires MemberPasses(m, c) && At(line, i, MemberText(m))
    ensures Is(line, SkipSpace(line, i), '"')
  {
    hide At, SkipSpace, Decode, NameText, ItemText, ItemPasses;
    AtConcat(line, i, NameText(m.name), ItemText(m.item));
    NameHead(line, i, m.name);
  }

  lemma {:induction false} PassesGivenUp(line: string, i: nat, t: Tree, after: string, c: char)
    requires t.GivenUp? && Stands(t, after, c) && Ws(after) && !IsWs(c)
    requires At(line, i, BodyText(t)) && At(line, i + |BodyText(t)|, after) && Is(line, i + |BodyText(t)| + |after|, c)
    ensures var q := SkipSpace(line, i);
            var r := if Is(line, q, '}') then Scan(q + 1, None) else ScanMembers(line, q, {});
            Over(line, r, i + |BodyText(t)| + |after|)
    decreases t, 1
  {
    hide At, ScanMembers, SkipSpace, Stuck, Ws;
    var members, pad, key := t.members, t.pad, t.key;
    AtConcat(line, i, MembersText(members), pad + key);
    var m := i + |MembersText(members)|;
    AtConcat(line, m, pad, key);
    SkipAgain(line, i);
    SameSkip(line, i, SkipSpace(line, i));
    if members == [] { StuckHead(line, i, pad, key, after, c); } else { MembersHead(line, i, members); }
    var all := PassesMembers(line, i, members, {});
    GivesUp(line, m, pad, key, after, c, all);
  }

  lemma StuckHead(line: string, i: nat, pad: string, key: string, after: string, c: char)
    requires Ws(pad) && Ws(after) && !IsWs(c) && Stuck(key, c) && (key == "" ==> c != '}')
    requires At(line, i, pad) && At(line, i + |pad|, key) && At(line, i + |pad| + |key|, after) && Is(line, i + |pad| + |key| + |after|, c)
    ensures !Is(line, SkipSpace(line, i), '}')
  {
    hide At, SkipSpace, Closes, Decode;
    SkipOver(line, i, pad);
    if key == "" {
      SkipsWs(line, i + |pad|, after);
    } else {
      AtIndex(line, i + |pad|, key, 0);
      SkipNothing(line, i + |pad|);
    }
  }

  /** Where no member can be read, the scan of the object ends and goes on after the spaces. */
  lemma GivesUp(line: string, i: nat, pad: string, key: string, after: string, c: char, seen: set<KeyUnits>)
    requires Ws(pad) && Ws(after) && !IsWs(c) && Stuck(key, c)
    requires At(line, i, pad) && At(line, i + |pad|, key) && At(line, i + |pad| + |key|, after) && Is(line, i + |pad| + |key| + |after|, c)
    ensures Over(line, ScanMembers(line, i, seen), i + |pad| + |key| + |after|)
  {
    hide At, SkipSpace, Closes, Decode, ScanValue;
    var q, e := i + |pad| + |key|, i + |pad| + |key| + |after|;
    SkipOver(line, i, pad);
    SkipsWs(line, q, after);
    SkipNothing(line, e);
    if key != "" {
      AtIndex(line, i + |pad|, key, 0);
      SkipNothing(line, i + |pad|);
      ReadsQuotedKey(line, i + |pad|, key);
    }
  }

  // ----- a begun tree whose last key repeats is reported

  /** The scan reports at the end of the begun tree its last key, or something before. */
  predicate Reported(r: Scan, e: nat, key: Option<KeyUnits>) {
    r.duplicate.Some? && r.at <= e && (r.at == e ==> r.duplicate == key)
  }

  lemma {:induction false} BegunReported(line: string, i: nat, w: string, b: Begun)
    requires Ws(w) && Repeats(b) && At(line, i, w + BegunText(b))
    ensures Reported(ScanValue(line, i), i + |w| + |BegunText(b)|, LastKey(b))
    decreases b, 2
  {
    hide At, ScanMembers, ScanItems, SkipSpace, OpenText, ItemsText, Ws;
    AtConcat(line, i, w, BegunText(b));
    var p := i + |w|;
    SkipOver(line, i, w);
    AtIndex(line, p, BegunText(b), 0);
    SkipNothing(line, p);
    match b
    case InArray(items, space, inner) =>
      AtConcat(line, p, "[", ItemsText(items) + (space + BegunText(inner)));
      ItemsReported(line, p + 1, b);
    case _ =>
      AtConcat(line, p, "{", OpenText(b));
      OpenReported(line, p + 1, b);
  }

  lemma {:induction false} ItemsReported(line: string, i: nat, b: Begun)
    requires b.InArray? && Repeats(b) && At(line, i, ItemsText(b.items) + (b.space + BegunText(b.inner)))
    ensures var q := SkipSpace(line, i);
            !Is(line, q, ']') && Reported(ScanItems(line, q), i + |ItemsText(b.items)| + |b.space| + |BegunText(b.inner)|, LastKey(b))
    decreases b, 1
  {
    hide At, ScanValue, SkipSpace, ItemText, ItemPasses, OpenText, Ws;
    var items, space, inner := b.items, b.space, b.inner;
    AtConcat(line, i, ItemsText(items), space + BegunText(inner));
    var m := i + |ItemsText(items)|;
    SkipAgain(line, i);
    SameSkip(line, i, SkipSpace(line, i));
    if items == [] {
      AtConcat(line, m, space, BegunText(inner));
      SkipOver(line, m, space);
      AtIndex(line, m + |space|, BegunText(inner), 0);
      SkipNothing(line, m + |space|);
    } else {
      var rest := "," + ItemsText(items[1..]);
      AtConcat(line, i, ItemText(items[0]), rest);
      AtIndex(line, i + |ItemText(items[0])|, rest, 0);
      ItemHead(line, i, items[0], ',');
    }
    PassesItems(line, i, items);
    BegunReported(line, m, space, inner);
  }

  /** An open object is not empty: its scan begins with a member's key. */
  lemma OpenHead(line: string, i: nat, b: Begun)
    requires !b.InArray? && Repeats(b) && At(line, i, OpenText(b))
    ensures var q := SkipSpace(line, i); !Is(line, q, '}') && ScanMembers(line, q, {}) == ScanMembers(line, i, {})
  {
    hide At, ScanMembers, SkipSpace, MemberText, MemberPasses, Ws, Decode, NameText;
    var members := b.members;
    SkipAgain(line, i);
    SameMembers(line, i, SkipSpace(line, i));
    match b
    case Repeat(_, pad, key) =>
      AtConcat(line, i, MembersText(members), pad + key);
      if members != [] { MembersHead(line, i, members); } else { KeyHead(line, i, pad, key); }
    case InObject(_, name, space, inner) =>
      var m := i + |MembersText(members)|;
      AtConcat(line, i, MembersText(members), NameText(name) + (space + BegunText(inner)));
      AtConcat(line, m, NameText(name), space + BegunText(inner));
      if members != [] { MembersHead(line, i, members); } else { NameHead(line, m, name); }
  }

  lemma KeyHead(line: string, i: nat, pad: string, key: string)
    requires Ws(pad) && At(line, i, pad + key) && Decode(key).Some?
    ensures Is(line, SkipSpace(line, i), '"')
  {
    hide At, SkipSpace, Decode, Closes, Ws;
    AtConcat(line, i, pad, key);
    DecodedQuoted(key);
    AtIndex(line, i + |pad|, key, 0);
    SkipOver(line, i, pad);
    SkipNothing(line, i + |pad|);
  }

  lemma {:induction false} OpenReported(line: string, i: nat, b: Begun)
    requires !b.InArray? && Repeats(b) && At(line, i, OpenText(b))
    ensures var q := SkipSpace(line, i);
            !Is(line, q, '}') && Reported(ScanMembers(line, q, {}), i + |OpenText(b)|, LastKey(b))
    decreases b, 1
  {
    hide At, ScanMembers, SkipSpace, MembersText, MembersPass, Ws, Decode, NameText;
    var m := i + |MembersText(b.members)|;
    OpenHead(line, i, b);
    match b
    case Repeat(members, pad, key) =>
      AtConcat(line, i, MembersText(members), pad + key);
      var all := PassesMembers(line, i, members, {});
      assert HasKey(members, Decode(key).value);
      DecodedQuoted(key);
      KeyRepeats(line, m, pad, key, all);
    case InObject(members, name, space, inner) =>
      AtConcat(line, i, MembersText(members), NameText(name) + (space + BegunText(inner)));
      AtConcat(line, m, NameText(name), space + BegunText(inner));
      var all := PassesMembers(line, i, members, {});
      BegunReported(line, m + |NameText(name)|, space, inner);
      InnerReported(line, m, name, all);
  }

  lemma KeyRepeats(line: string, i: nat, pad: string, key: string, seen: set<KeyUnits>)
    requires Ws(pad) && At(line, i, pad + key) && Decode(key).Some? && Decode(key).value in seen
    ensures Is(line, SkipSpace(line, i), '"') && ScanMembers(line, i, seen) == Scan(i + |pad| + |key|, Decode(key))
  {
    hide At, SkipSpace, Decode, Closes, Ws;
    AtConcat(line, i, pad, key);
    DecodedQuoted(key);
    AtIndex(line, i + |pad|, key, 0);
    SkipOver(line, i, pad);
    SkipNothing(line, i + |pad|);
    ReadsQuotedKey(line, i + |pad|, key);
  }

  /** A report inside a member's value, or of its name, is the object's. */
  lemma InnerReported(line: string, i: nat, n: Name, seen: set<KeyUnits>)
    requires IsName(n) && At(line, i, NameText(n)) && ScanValue(line, i + |NameText(n)|).duplicate.Some?
    ensures var r, e := ScanMembers(line, i, seen), i + |NameText(n)|;
            (r.duplicate.Some? && r.at < e) || r == ScanValue(line, e)
  {
    hide At, SkipSpace, Decode, ReadString, ScanValue, Ws;
    ReadsName(line, i, n);
  }

  // ----- what the scanner passed over is a tree

  lemma {:induction false} EndNotFound(line: string, i: nat)
    ensures !StringEnd(line, i).0 ==> StringEnd(line, i).1 >= |line|
    decreases |line| - i
  {
    if i < |line| && line[i] != '"' { EndNotFound(line, if line[i] == '\\' then i + 2 else i + 1); }
  }

  lemma SpacesAt(line: string, i: nat)
    requires SkipSpace(line, i) <= |line|
    ensures var e := SkipSpace(line, i); i <= e && Ws(line[i..e]) && At(line, i, line[i..e]) && (e < |line| ==> !IsWs(line[e]))
  {
    SkipStops(line, i);
  }

  lemma AtJoin(line: string, i: nat, a: string, b: string)
    requires At(line, i, a) && At(line, i + |a|, b)
    ensures At(line, i, a + b)
  {
    AtConcat(line, i, a, b);
  }

  /** A name where the scanner read a key and its colon. */
  lemma NameAt(line: string, i: nat) returns (n: Name)
    requires var (lexeme, q) := ReadString(line, SkipSpace(line, i));
             lexeme.Some? && Decode(lexeme.value).Some? && Is(line, SkipSpace(line, q), ':')
    ensures IsName(n) && At(line, i, NameText(n)) && n.key == ReadString(line, SkipSpace(line, i)).0.value
    ensures i + |NameText(n)| == SkipSpace(line, ReadString(line, SkipSpace(line, i)).1) + 1
  {
    hide At, ReadString, Decode, SkipSpace, Closes;
    var p := SkipSpace(line, i);
    var (lexeme, q) := ReadString(line, p);
    KeyQuoted(line, p);
    SpacesAt(line, i);
    SpacesAt(line, q);
    var r := SkipSpace(line, q);
    n := Name(line[i..p], lexeme.value, line[q..r]);
    AtOne(line, r, ':');
    AtJoin(line, q, n.colon, ":");
    AtJoin(line, p, n.key, n.colon + ":");
    AtJoin(line, i, n.before, n.key + (n.colon + ":"));
  }

  lemma AtOne(line: string, i: nat, c: char)
    requires Is(line, i, c)
    ensures At(line, i, [c])
  {
  }

  lemma {:induction false} ItemAt(line: string, i: nat) returns (x: Item)
    requires ScanValue(line, i).duplicate.None? && SkipSpace(line, ScanValue(line, i).at) < |line|
    ensures var e := SkipSpace(line, ScanValue(line, i).at);
            At(line, i, ItemText(x)) && i + |ItemText(x)| == e && ItemPasses(x, line[e])
    decreases Left(line, i), 4
  {
    hide At, ScanValue, SkipSpace, TreeText, Ws, Stands;
    var e, p := SkipSpace(line, ScanValue(line, i).at), SkipSpace(line, i);
    SkipAgain(line, i);
    SameValue(line, i, p);
    SpacesAt(line, i);
    SpacesAt(line, ScanValue(line, i).at);
    var t, after := TreeAt(line, p);
    x := Item(line[i..p], t, after);
    AtJoin(line, p, TreeText(t), after);
    AtJoin(line, i, x.before, TreeText(t) + after);
  }

  lemma {:induction false} TreeAt(line: string, p: nat) returns (t: Tree, after: string)
    requires SkipSpace(line, p) == p && ScanValue(line, p).duplicate.None? && SkipSpace(line, ScanValue(line, p).at) < |line|
    ensures var e := SkipSpace(line, ScanValue(line, p).at);
            && At(line, p, TreeText(t)) && At(line, p + |TreeText(t)|, after) && p + |TreeText(t)| + |after| == e
            && Ws(after) && Stands(t, after, line[e])
    decreases Left(line, p), 3
  {
    hide At, SkipSpace, ReadString, ScanItems, ScanMembers, AtomEnd, Ws, Closes, BodyText, ItemText, ItemsText;
    var r := ScanValue(line, p);
    var e := SkipSpace(line, r.at);
    SpacesAt(line, r.at);
    if Is(line, p, '{') {
      t, after := ObjectAt(line, p);
    } else if Is(line, p, '[') {
      t := ArrayAt(line, p);
      after := line[r.at..e];
    } else if Is(line, p, '"') {
      t := QuotedAt(line, p);
      after := line[r.at..e];
    } else {
      t := RunFound(line, p);
      after := line[r.at..e];
    }
  }

  lemma QuotedAt(line: string, p: nat) returns (t: Tree)
    requires Is(line, p, '"') && ReadString(line, p).1 <= |line| && SkipSpace(line, ReadString(line, p).1) < |line|
    ensures t.Quoted? && IsQuoted(t.raw) && At(line, p, t.raw) && p + |t.raw| == ReadString(line, p).1
  {
    hide At, SkipSpace, Closes;
    EndNotFound(line, p + 1);
    KeyQuoted(line, p);
    t := Quoted(ReadString(line, p).0.value);
  }

  lemma RunFound(line: string, p: nat) returns (t: Tree)
    requires SkipSpace(line, p) == p && !Is(line, p, '{') && !Is(line, p, '[') && !Is(line, p, '"')
    requires AtomEnd(line, p) <= |line| && SkipSpace(line, AtomEnd(line, p)) < |line|
    ensures var f := AtomEnd(line, p);
            var e := SkipSpace(line, f);
            t.Run? && At(line, p, t.raw) && p + |t.raw| == f && Stands(t, line[f..e], line[e])
  {
    hide SkipSpace, AtomEnd;
    var f := AtomEnd(line, p);
    RunAt(line, p);
    t := Run(line[p..f]);
    SpacesAt(line, p);
    if f < |line| && !IsWs(line[f]) { SkipNothing(line, f); }
    assert forall k | 0 <= k < |t.raw| :: t.raw[k] == line[p + k];
  }

  lemma {:induction false} ArrayAt(line: string, p: nat) returns (t: Tree)
    requires SkipSpace(line, p) == p && Is(line, p, '[') && ScanValue(line, p).duplicate.None? && ScanValue(line, p).at <= |line|
    ensures t.Array? && At(line, p, TreeText(t)) && p + |TreeText(t)| == ScanValue(line, p).at && Stands(t, "", ' ')
    decreases Left(line, p), 2
  {
    hide At, SkipSpace, ReadString, ScanItems, ScanMembers, AtomEnd, Ws, ItemText;
    var q := SkipSpace(line, p + 1);
    AtOne(line, p, '[');
    if Is(line, q, ']') {
      t := NothingAt(line, p + 1);
    } else {
      SkipAgain(line, p + 1);
      SameSkip(line, p + 1, q);
      var items, last, close := ItemsAt(line, p + 1);
      t := Array(items, last, close);
    }
    AtJoin(line, p, "[", ItemsText(t.items) + (ItemText(t.last) + [t.close]));
  }

  /** An array of nothing is one with an empty run in it. */
  lemma NothingAt(line: string, i: nat) returns (t: Tree)
    requires Is(line, SkipSpace(line, i), ']')
    ensures t.Array? && Stands(t, "", ' ')
    ensures var text := ItemsText(t.items) + (ItemText(t.last) + [t.close]);
            At(line, i, text) && i + |text| == SkipSpace(line, i) + 1
  {
    hide At, SkipSpace, Ws;
    var q := SkipSpace(line, i);
    SpacesAt(line, i);
    var last := Item(line[i..q], Run(""), "");
    t := Array([], last, ']');
    NoSpaces();
    AtOne(line, q, ']');
    assert ItemText(last) == line[i..q];
    AtJoin(line, i, ItemText(last), "]");
    assert ItemsText([]) + (ItemText(last) + [']']) == ItemText(last) + "]";
    assert Stands(Run(""), "", ']');
    assert ItemPasses(last, ']');
  }

  lemma NoSpaces()
    ensures Ws("")
  {
  }

  lemma NoItems()
    ensures ItemsText([]) == "" && ItemsPass([])
  {
  }

  lemma ItemFirst(x: Item, items: seq<Item>, rest: string)
    ensures ItemsText([x] + items) + rest == ItemText(x) + ("," + (ItemsText(items) + rest))
    ensures ItemPasses(x, ',') && ItemsPass(items) ==> ItemsPass([x] + items)
  {
    hide ItemText, ItemPasses;
    assert ([x] + items)[1..] == items;
  }

  lemma {:induction false} ItemsAt(line: string, i: nat) returns (items: seq<Item>, last: Item, close: char)
    requires ScanItems(line, i).duplicate.None? && ScanItems(line, i).at <= |line|
    ensures ItemsPass(items) && ItemPasses(last, close) && close != ','
    ensures var text := ItemsText(items) + (ItemText(last) + [close]);
            At(line, i, text) && i + |text| == ScanItems(line, i).at
    decreases Left(line, i), 5
  {
    hide At, SkipSpace, ScanValue, ItemText, ItemPasses, ItemsText, ItemsPass;
    NoItems();
    var t := SkipSpace(line, ScanValue(line, i).at);
    var x := ItemAt(line, i);
    if line[t] == ',' {
      items, last, close := ItemsAt(line, t + 1);
      var rest := ItemsText(items) + (ItemText(last) + [close]);
      AtOne(line, t, ',');
      AtJoin(line, t, ",", rest);
      AtJoin(line, i, ItemText(x), "," + rest);
      ItemFirst(x, items, ItemText(last) + [close]);
      items := [x] + items;
    } else {
      items, last, close := [], x, line[t];
      AtOne(line, t, close);
      AtJoin(line, i, ItemText(last), [close]);
      assert ItemsText([]) + (ItemText(last) + [close]) == ItemText(last) + [close];
    }
  }

  lemma EmptyStands(pad: string, after: string, c: char)
    requires Ws(pad)
    ensures Stands(Empty(pad), after, c)
  {
  }

  /** What the scan passed over stands, when the object was not closed at once. */
  lemma PassedStands(line: string, i: nat, t: Tree, after: string, e: nat)
    requires Passed(line, i, t, after, e) && !Is(line, SkipSpace(line, i), '}')
    ensures e < |line| && (t.Object? || t.GivenUp?) && Stands(t, after, line[e]) && Ws(after)
    ensures At(line, i, BodyText(t)) && At(line, i + |BodyText(t)|, after) && i + |BodyText(t)| + |after| == e
  {
    hide At, SkipSpace, BodyText, Ws, Stuck, MembersPass, MemberPasses;
  }

  lemma EmptyAt(line: string, p: nat, q: nat) returns (t: Tree, after: string)
    requires Is(line, p, '{') && q == SkipSpace(line, p + 1) && Is(line, q, '}') && SkipSpace(line, q + 1) < |line|
    ensures t.Empty? && Ws(t.pad) && At(line, p, TreeText(t)) && p + |TreeText(t)| == q + 1
    ensures after == line[q + 1..SkipSpace(line, q + 1)] && At(line, q + 1, after) && Ws(after)
  {
    hide At, SkipSpace, Ws;
    SpacesAt(line, p + 1);
    SpacesAt(line, q + 1);
    t, after := Empty(line[p + 1..q]), line[q + 1..SkipSpace(line, q + 1)];
    AtOne(line, p, '{');
    AtOne(line, q, '}');
    AtJoin(line, p + 1, t.pad, "}");
    AtJoin(line, p, "{", t.pad + "}");
  }

  lemma {:induction false} ObjectAt(line: string, p: nat) returns (t: Tree, after: string)
    requires SkipSpace(line, p) == p && Is(line, p, '{')
    requires ScanValue(line, p).duplicate.None? && SkipSpace(line, ScanValue(line, p).at) < |line|
    ensures var e := SkipSpace(line, ScanValue(line, p).at);
            && At(line, p, TreeText(t)) && At(line, p + |TreeText(t)|, after) && p + |TreeText(t)| + |after| == e
            && Ws(after) && Stands(t, after, line[e])
    decreases Left(line, p), 2
  {
    hide At, SkipSpace, ReadString, ScanItems, ScanMembers, AtomEnd, Ws, BodyText, Passed, Stands;
    var q := SkipSpace(line, p + 1);
    AtOne(line, p, '{');
    if Is(line, q, '}') {
      t, after := EmptyAt(line, p, q);
      EmptyStands(t.pad, after, line[SkipSpace(line, q + 1)]);
    } else {
      SkipAgain(line, p + 1);
      SameSkip(line, p + 1, q);
      t, after := BodyAt(line, p + 1, {});
      PassedStands(line, p + 1, t, after, SkipSpace(line, ScanValue(line, p).at));
      AtJoin(line, p, "{", BodyText(t));
    }
  }

  /** The members the scan of an object passed over, and where it ended or gave up. */
  ghost predicate Passed(line: string, i: nat, t: Tree, after: string, e: nat) {
    && e < |line| && (t.Object? || t.GivenUp?)
    && At(line, i, BodyText(t)) && At(line, i + |BodyText(t)|, after) && i + |BodyText(t)| + |after| == e && Ws(after)
    && (t.Object? ==> Stands(t, after, line[e]))
    && (t.GivenUp? ==> MembersPass(t.members) && Ws(t.pad) && Stuck(t.key, line[e]) && !IsWs(line[e]))
    && (t.GivenUp? && t.members == [] && t.key == "" ==> SkipSpace(line, i) == e)
  }

  lemma {:induction false} BodyAt(line: string, i: nat, seen: set<KeyUnits>) returns (t: Tree, after: string)
    requires ScanMembers(line, i, seen).duplicate.None? && SkipSpace(line, ScanMembers(line, i, seen).at) < |line|
    ensures (t.Object? || t.GivenUp?) && Passed(line, i, t, after, SkipSpace(line, ScanMembers(line, i, seen).at))
    decreases Left(line, i), 5
  {
    hide At, SkipSpace, ReadString, ScanMembers, ScanValue, Passed, Decode, NameText, ItemText, ItemPasses;
    if NameStops(line, i) {
      t, after := StuckAt(line, i, seen);
    } else {
      var n := NameAt(line, i);
      var a := i + |NameText(n)|;
      ScansMember(line, i, n, seen);
      var x := ItemAt(line, a);
      AtJoin(line, i, NameText(n), ItemText(x));
      var m, s := Member(n, x), SkipSpace(line, ScanValue(line, a).at);
      if line[s] == ',' {
        var rest, spaces := BodyAt(line, s + 1, seen + {KeyRead(m)});
        t, after := Prepended(m, rest), spaces;
        PrependPasses(line, i, m, s, rest, spaces, SkipSpace(line, ScanMembers(line, i, seen).at));
      } else {
        t, after := Object([], m, line[s]), line[s + 1..SkipSpace(line, s + 1)];
        ClosesPassed(line, i, m, s);
      }
    }
  }

  /** No key and colon can be read. */
  predicate NameStops(line: string, i: nat) {
    var (lexeme, q) := ReadString(line, SkipSpace(line, i));
    lexeme.None? || Decode(lexeme.value).None? || !Is(line, SkipSpace(line, q), ':')
  }

  /** With a new key and its colon read, an object's scan is its member's, then what follows the value. */
  lemma ScansMember(line: string, i: nat, n: Name, seen: set<KeyUnits>)
    requires !NameStops(line, i) && n.key == ReadString(line, SkipSpace(line, i)).0.value && i < i + |NameText(n)| <= |line|
    requires i + |NameText(n)| == SkipSpace(line, ReadString(line, SkipSpace(line, i)).1) + 1
    requires ScanMembers(line, i, seen).duplicate.None?
    requires SkipSpace(line, ScanMembers(line, i, seen).at) < |line|
    ensures Decode(n.key).Some? && var v := ScanValue(line, i + |NameText(n)|);
            var s := SkipSpace(line, v.at);
            && v.duplicate.None? && s < |line|
            && ScanMembers(line, i, seen) == if line[s] == ',' then ScanMembers(line, s + 1, seen + {Decode(n.key).value}) else Scan(s + 1, None)
  {
    hide SkipSpace, ReadString, ScanValue, Decode, NameText;
    SkipAdvances(line, ScanMembers(line, i, seen).at);
    SkipAdvances(line, ScanValue(line, i + |NameText(n)|).at);
  }

  lemma SkipAdvances(line: string, i: nat)
    ensures i <= SkipSpace(line, i)
  {
  }

  function Prepended(m: Member, t: Tree): Tree
    requires t.Object? || t.GivenUp?
  {
    if t.Object? then Object([m] + t.members, t.final, t.close) else GivenUp([m] + t.members, t.pad, t.key)
  }

  lemma PrependPasses(line: string, i: nat, m: Member, s: nat, rest: Tree, after: string, e: nat)
    requires At(line, i, MemberText(m)) && i + |MemberText(m)| == s && Is(line, s, ',') && MemberPasses(m, ',')
    requires Passed(line, s + 1, rest, after, e)
    ensures Passed(line, i, Prepended(m, rest), after, e)
  {
    hide At, SkipSpace, MemberText, MemberPasses, Stuck, Stands, MembersPass, Ws;
    var t := Prepended(m, rest);
    assert t.members[1..] == rest.members;
    assert BodyText(t) == MemberText(m) + ("," + BodyText(rest));
    PrependStands(m, rest, after, line[e]);
    AtOne(line, s, ',');
    AtJoin(line, s, ",", BodyText(rest));
    AtJoin(line, i, MemberText(m), "," + BodyText(rest));
  }

  lemma ClosesPassed(line: string, i: nat, m: Member, s: nat)
    requires At(line, i, MemberText(m)) && i + |MemberText(m)| == s < |line| && line[s] != ',' && MemberPasses(m, line[s])
    requires SkipSpace(line, s + 1) < |line|
    ensures Passed(line, i, Object([], m, line[s]), line[s + 1..SkipSpace(line, s + 1)], SkipSpace(line, s + 1))
  {
    hide At, SkipSpace, MemberText, MemberPasses, Stands, Ws;
    var e, t := SkipSpace(line, s + 1), Object([], m, line[s]);
    SpacesAt(line, s + 1);
    AtOne(line, s, line[s]);
    AtJoin(line, i, MemberText(m), [line[s]]);
    assert BodyText(t) == MemberText(m) + [line[s]];
    OneMemberStands(m, line[s], line[s + 1..e], line[e]);
  }

  lemma OneMemberStands(m: Member, close: char, after: string, c: char)
    requires MemberPasses(m, close) && close != ','
    ensures Stands(Object([], m, close), after, c)
  {
    hide MemberPasses;
    assert MembersPass([]);
  }

  lemma PrependStands(m: Member, t: Tree, after: string, c: char)
    requires MemberPasses(m, ',') && (t.Object? || t.GivenUp?)
    requires if t.Object? then Stands(t, after, c) else MembersPass(t.members) && Ws(t.pad) && Stuck(t.key, c)
    ensures Stands(Prepended(m, t), after, c) && MembersPass(Prepended(m, t).members)
  {
    hide MemberPasses, Stuck, Ws;
    assert Prepended(m, t).members[1..] == t.members;
  }

  /** The scan of an object gives up where no member can be read. */
  lemma StuckAt(line: string, i: nat, seen: set<KeyUnits>) returns (t: Tree, after: string)
    requires NameStops(line, i)
    requires ScanMembers(line, i, seen).duplicate.None? && SkipSpace(line, ScanMembers(line, i, seen).at) < |line|
    ensures (t.Object? || t.GivenUp?) && Passed(line, i, t, after, SkipSpace(line, ScanMembers(line, i, seen).at))
  {
    hide At, SkipSpace, Decode, ScanValue, Closes, ReadString, Passed, ScanMembers;
    var p := SkipSpace(line, i);
    var (lexeme, q) := ReadString(line, p);
    StuckEnd(line, i, seen);
    if lexeme.None? {
      t, after := GivenUp([], line[i..p], ""), "";
      NoKeyAt(line, i);
    } else {
      t, after := GivenUp([], line[i..p], lexeme.value), line[q..SkipSpace(line, q)];
      SkipAdvances(line, i);
      SkipAdvances(line, q);
      BadKeyAt(line, i, p, lexeme.value, q);
    }
  }

  lemma StuckEnd(line: string, i: nat, seen: set<KeyUnits>)
    requires NameStops(line, i) && ScanMembers(line, i, seen).duplicate.None?
    requires SkipSpace(line, ScanMembers(line, i, seen).at) < |line|
    ensures SkipSpace(line, ScanMembers(line, i, seen).at) == SkipSpace(line, ReadString(line, SkipSpace(line, i)).1)
    ensures SkipSpace(line, i) <= ReadString(line, SkipSpace(line, i)).1 < |line|
  {
    hide SkipSpace, Decode, ScanValue, ReadString;
    var q := ReadString(line, SkipSpace(line, i)).1;
    SkipAgain(line, q);
    SkipAdvances(line, q);
  }

  lemma NoKeyAt(line: string, i: nat)
    requires var p := SkipSpace(line, i); ReadString(line, p).0.None? && p <= ReadString(line, p).1 < |line|
    ensures var p := SkipSpace(line, i);
            Passed(line, i, GivenUp([], line[i..p], ""), "", p) && p == SkipSpace(line, ReadString(line, p).1)
  {
    hide At, SkipSpace, Closes, StringEnd;
    var p := SkipSpace(line, i);
    SpacesAt(line, i);
    EndNotFound(line, p + 1);
    SkipAgain(line, i);
    NoSpaces();
    AtNothing(line, p);
    GivenUpPasses(line, i, line[i..p], "", "", p);
  }

  lemma BadKeyAt(line: string, i: nat, p: nat, key: string, q: nat)
    requires SkipSpace(line, i) == p && ReadString(line, p) == (Some(key), q)
    requires Decode(key).None? || !Is(line, SkipSpace(line, q), ':')
    requires i <= p <= q <= SkipSpace(line, q) < |line|
    ensures Passed(line, i, GivenUp([], line[i..p], key), line[q..SkipSpace(line, q)], SkipSpace(line, q))
  {
    hide At, SkipSpace, Closes, ReadString, Decode, Passed, Ws;
    KeyQuoted(line, p);
    SpacesAt(line, i);
    SpacesAt(line, q);
    GivenUpPasses(line, i, line[i..p], key, line[q..SkipSpace(line, q)], SkipSpace(line, q));
  }

  lemma GivenUpPasses(line: string, i: nat, pad: string, key: string, after: string, e: nat)
    requires At(line, i, pad) && At(line, i + |pad|, key) && At(line, i + |pad| + |key|, after) && i + |pad| + |key| + |after| == e
    requires e < |line| && Ws(pad) && Ws(after) && !IsWs(line[e]) && Stuck(key, line[e]) && (key == "" ==> SkipSpace(line, i) == e)
    ensures Passed(line, i, GivenUp([], pad, key), after, e)
  {
    hide At, SkipSpace, Stuck, Ws;
    AtJoin(line, i, pad, key);
    assert BodyText(GivenUp([], pad, key)) == pad + key;
  }

  lemma AtNothing(line: string, i: nat)
    requires i <= |line|
    ensures At(line, i, "")
  {
  }

  // ----- what the scanner reported is the end of a begun tree

  /** A begun tree behind spaces at `i`, ending with a repeated key at `e`. */
  ghost predicate Found(line: string, i: nat, w: string, b: Begun, r: Scan) {
    Ws(w) && Repeats(b) && At(line, i, w + BegunText(b)) && i + |w| + |BegunText(b)| == r.at && LastKey(b) == r.duplicate
  }

  ghost predicate FoundOpen(line: string, i: nat, b: Begun, seen: set<KeyUnits>, r: Scan) {
    !b.InArray? && RepeatsAfter(b, seen) && At(line, i, OpenText(b)) && i + |OpenText(b)| == r.at && LastKey(b) == r.duplicate
  }

  ghost predicate FoundIn(line: string, i: nat, b: Begun, r: Scan) {
    && b.InArray? && Repeats(b) && LastKey(b) == r.duplicate
    && var text := ItemsText(b.items) + (b.space + BegunText(b.inner));
       At(line, i, text) && i + |text| == r.at
  }

  lemma {:induction false} BegunAt(line: string, i: nat) returns (w: string, b: Begun)
    requires ScanValue(line, i).duplicate.Some?
    ensures Found(line, i, w, b, ScanValue(line, i))
    decreases Left(line, i), 1
  {
    hide At, SkipSpace, ReadString, ScanItems, ScanMembers, AtomEnd, Ws, OpenText, ItemsText, RepeatsAfter;
    var p := SkipSpace(line, i);
    SpacesAt(line, i);
    w := line[i..p];
    SkipAgain(line, p + 1);
    SameSkip(line, p + 1, SkipSpace(line, p + 1));
    AtOne(line, p, line[p]);
    if line[p] == '{' {
      b := OpenAt(line, p + 1, {});
      AtJoin(line, p, "{", OpenText(b));
    } else {
      b := InArrayAt(line, p + 1);
      AtJoin(line, p, "[", ItemsText(b.items) + (b.space + BegunText(b.inner)));
    }
    AtJoin(line, i, w, BegunText(b));
  }

  lemma {:induction false} InArrayAt(line: string, i: nat) returns (b: Begun)
    requires ScanItems(line, i).duplicate.Some?
    ensures FoundIn(line, i, b, ScanItems(line, i))
    decreases Left(line, i), 2
  {
    hide At, SkipSpace, ScanValue, ItemText, ItemPasses, Ws, BegunText;
    if ScanValue(line, i).duplicate.Some? {
      var w, inner := BegunAt(line, i);
      b := InArray([], w, inner);
      assert ItemsText([]) + (w + BegunText(inner)) == w + BegunText(inner);
    } else {
      var t := SkipSpace(line, ScanValue(line, i).at);
      var x := ItemAt(line, i);
      var rest := InArrayAt(line, t + 1);
      var tail := ItemsText(rest.items) + (rest.space + BegunText(rest.inner));
      b := InArray([x] + rest.items, rest.space, rest.inner);
      AtOne(line, t, ',');
      AtJoin(line, t, ",", tail);
      AtJoin(line, i, ItemText(x), "," + tail);
      assert b.items[1..] == rest.items;
      assert ItemsText(b.items) + (b.space + BegunText(b.inner)) == ItemText(x) + ("," + tail);
    }
  }

  lemma {:induction false} OpenAt(line: string, i: nat, seen: set<KeyUnits>) returns (b: Begun)
    requires ScanMembers(line, i, seen).duplicate.Some?
    ensures !b.InArray? && FoundOpen(line, i, b, seen, ScanMembers(line, i, seen))
    decreases Left(line, i), 2
  {
    hide At, SkipSpace, ReadString, ScanValue, Decode, NameText, ItemText, ItemPasses, FoundOpen, Found;
    var p := SkipSpace(line, i);
    var (lexeme, q) := ReadString(line, p);
    var key := Decode(lexeme.value).value;
    if key in seen {
      b := RepeatAt(line, i, seen);
    } else {
      var n := NameAt(line, i);
      var v := ScanValue(line, i + |NameText(n)|);
      if v.duplicate.Some? {
        var space, inner := BegunAt(line, i + |NameText(n)|);
        b := InObject([], n, space, inner);
        InnerFound(line, i, n, space, inner, seen, v);
      } else {
        var x := ItemAt(line, i + |NameText(n)|);
        var s := SkipSpace(line, v.at);
        AtJoin(line, i, NameText(n), ItemText(x));
        var rest := OpenAt(line, s + 1, seen + {key});
        b := Extended(Member(n, x), rest);
        ExtendFound(line, i, Member(n, x), s, rest, seen, ScanMembers(line, i, seen));
      }
    }
  }

  function Extended(m: Member, b: Begun): Begun
    requires !b.InArray?
  {
    if b.Repeat? then Repeat([m] + b.members, b.pad, b.key) else InObject([m] + b.members, b.name, b.space, b.inner)
  }

  lemma RepeatAt(line: string, i: nat, seen: set<KeyUnits>) returns (b: Begun)
    requires var lexeme := ReadString(line, SkipSpace(line, i)).0;
             lexeme.Some? && Decode(lexeme.value).Some? && Decode(lexeme.value).value in seen
    ensures !b.InArray? && FoundOpen(line, i, b, seen, ScanMembers(line, i, seen))
  {
    hide At, SkipSpace, Decode, ScanValue, Closes, StringEnd;
    var p := SkipSpace(line, i);
    var (lexeme, q) := ReadString(line, p);
    SpacesAt(line, i);
    KeyQuoted(line, p);
    b := Repeat([], line[i..p], lexeme.value);
    AtJoin(line, i, b.pad, b.key);
    assert OpenText(b) == b.pad + b.key;
  }

  lemma InnerFound(line: string, i: nat, n: Name, space: string, inner: Begun, seen: set<KeyUnits>, r: Scan)
    requires IsName(n) && At(line, i, NameText(n)) && Found(line, i + |NameText(n)|, space, inner, r)
    ensures FoundOpen(line, i, InObject([], n, space, inner), seen, r)
  {
    hide At, NameText, BegunText, Ws, IsName;
    AtJoin(line, i, NameText(n), space + BegunText(inner));
    var b := InObject([], n, space, inner);
    assert OpenText(b) == NameText(n) + (space + BegunText(inner));
  }

  lemma ExtendFound(line: string, i: nat, m: Member, s: nat, rest: Begun, seen: set<KeyUnits>, r: Scan)
    requires At(line, i, MemberText(m)) && i + |MemberText(m)| == s && Is(line, s, ',') && MemberPasses(m, ',')
    requires Decode(m.name.key).Some? && FoundOpen(line, s + 1, rest, seen + {Decode(m.name.key).value}, r)
    ensures FoundOpen(line, i, Extended(m, rest), seen, r)
  {
    hide At, Decode, MemberText, MemberPasses, NameText, BegunText;
    var b := Extended(m, rest);
    assert b.members[1..] == rest.members;
    assert OpenText(b) == MemberText(m) + ("," + OpenText(rest));
    AtOne(line, s, ',');
    AtJoin(line, s, ",", OpenText(rest));
    AtJoin(line, i, MemberText(m), "," + OpenText(rest));
  }

  // ----- main results

  /** The line begins, behind spaces, with a begun tree whose last key repeats one already read. */
  predicate Begins(line: string, pad: string, b: Begun) { Ws(pad) && Repeats(b) && pad + BegunText(b) <= line }

  ghost predicate BeginsWithRepeat(line: string) { exists pad, b :: Begins(line, pad, b) }

  /** No begun tree with a repeated key ends sooner. */
  ghost predicate Shortest(line: string, pad: string, b: Begun) {
    forall p, c :: Begins(line, p, c) ==> |pad| + |BegunText(b)| <= |p| + |BegunText(c)|
  }

  ghost predicate FirstRepeat(line: string, key: KeyUnits) {
    exists pad, b :: Begins(line, pad, b) && LastKey(b) == Some(key) && Shortest(line, pad, b)
  }

  /** On any line at all, well formed or not, the scanner reports a key exactly when the line begins with a
      begun tree whose last key repeats one already read in its object, and then it reports the key that ends
      the shortest such tree. */
  lemma ReportedExactly(line: string, key: KeyUnits)
    ensures FindDuplicateKey(line).Some? <==> BeginsWithRepeat(line)
    ensures FindDuplicateKey(line) == Some(key) <==> FirstRepeat(line, key)
  {
    hide ScanValue, Repeats, BegunText, Ws, LastKey;
    var r := ScanValue(line, 0);
    forall pad, b | Begins(line, pad, b)
      ensures Reported(r, |pad| + |BegunText(b)|, LastKey(b))
    {
      BegunReported(line, 0, pad, b);
    }
    if r.duplicate.Some? {
      var pad, b := BegunAt(line, 0);
      assert line[0..|pad + BegunText(b)|] == line[..|pad + BegunText(b)|];
      assert Begins(line, pad, b) && Shortest(line, pad, b);
      assert LastKey(b) == r.duplicate;
    }
  }

  /** On well-formed lines beginning with a repeat and having a duplicate are the same. */
  lemma WellFormedRepeats(before: string, c: Node, after: string)
    requires Wf(c) && Ws(before) && Ws(after)
    ensures BeginsWithRepeat(before + Source(c) + after) <==> HasDuplicate(c)
  {
    hide FindDuplicateKey, BeginsWithRepeat, HasDuplicate, Source, Wf, Ws, FirstDuplicate;
    ScannerIsExact(before, c, after);
    ReportedExactly(before + Source(c) + after, []);
  }

  /** One member whose value is never read as JSON, then the same key: what follows plays no part. So lines that
      are not JSON are reported, cut short behind the key or holding anything for a value. */
  lemma MalformedReported(key: string, run: string, rest: string)
    requires Decode(key).Some? && IsRun(run)
    ensures FindDuplicateKey("{" + (key + (":" + (run + ("," + (key + rest)))))) == Decode(key)
  {
    hide At, ReadString, ScanItems, ScanMembers, ScanValue, Decode, SkipSpace;
    var n := Name("", key, "");
    var value := run + ("," + (key + rest));
    var line := "{" + (key + (":" + value));
    NoSpaces();
    AtWhole(line);
    AtConcat(line, 0, "{", key + (":" + value));
    assert key + (":" + value) == NameText(n) + value;
    AtConcat(line, 1, NameText(n), value);
    var a := 1 + |NameText(n)|;
    AtConcat(line, a, run, "," + (key + rest));
    var t := a + |run|;
    AtConcat(line, t, ",", key + rest);
    AtConcat(line, t + 1, key, rest);
    AtIndex(line, t, ",", 0);
    assert At(line, t + 1, "" + key) by { assert "" + key == key; }
    RunScanned(line, a, run);
    KeyRepeats(line, t + 1, "", key, {} + {Decode(key).value});
    MemberThenKey(line, n, a, t);
  }

  lemma AtWhole(line: string)
    ensures At(line, 0, line)
  {
    assert line[0..|line|] == line;
  }

  lemma RunScanned(line: string, a: nat, run: string)
    requires IsRun(run) && At(line, a, run) && Is(line, a + |run|, ',')
    ensures ScanValue(line, a) == Scan(a + |run|, None)
  {
    hide At, ReadString, ScanItems, ScanMembers;
    if run != "" { AtIndex(line, a, run, 0); }
    SkipNothing(line, a);
    AtomEnds(line, a, run);
  }

  lemma MemberThenKey(line: string, n: Name, a: nat, t: nat)
    requires IsName(n) && Is(line, 0, '{') && At(line, 1, NameText(n)) && a == 1 + |NameText(n)|
    requires ScanValue(line, a) == Scan(t, None) && Is(line, t, ',')
    requires ScanMembers(line, t + 1, {} + {Decode(n.key).value}).duplicate == Decode(n.key)
    ensures FindDuplicateKey(line) == Decode(n.key)
  {
    hide At, ReadString, ScanItems, ScanMembers, Decode, Ws, NameText, SkipSpace;
    MemberRead(line, n, a, t);
    NameHead(line, 1, n);
    SkipNothing(line, 0);
    SkipAgain(line, 1);
    SameMembers(line, 1, SkipSpace(line, 1));
  }

  lemma MemberRead(line: string, n: Name, a: nat, t: nat)
    requires IsName(n) && At(line, 1, NameText(n)) && a == 1 + |NameText(n)|
    requires ScanValue(line, a) == Scan(t, None) && Is(line, t, ',')
    ensures ScanMembers(line, 1, {}) == ScanMembers(line, t + 1, {} + {Decode(n.key).value})
  {
    hide At, ReadString, ScanValue, Decode, Ws, NameText, SkipSpace;
    ReadsName(line, 1, n);
    SkipNothing(line, t);
  }

  // ----- which of those lines are not JSON

  ghost predicate WellFormed(line: string) {
    exists before, c, after :: Ws(before) && Wf(c) && Ws(after) && line == before + Source(c) + after
  }

  lemma {:induction false} MemsEnd(members: seq<Mem>)
    requires members != []
    ensures MemsSource(members) != "" && MemsSource(members)[|MemsSource(members)| - 1] == '}'
    decreases |members|
  {
    hide Source;
    MemsSplit(members);
    if |members| > 1 { MemsEnd(members[1..]); }
  }

  lemma DictEnds(c: Node)
    requires c.Dict?
    ensures Source(c)[|Source(c)| - 1] == '}'
  {
    hide MemsSource;
    if c.members != [] { MemsEnd(c.members); }
  }

  /** A well-formed line that opens an object ends with its closing brace, or spaces. */
  lemma ObjectLineEnds(before: string, c: Node, after: string)
    requires Ws(before) && Wf(c) && Ws(after)
    ensures var line := before + Source(c) + after;
            line != "" && (line[0] == '{' ==> var last := line[|line| - 1]; last == '}' || IsWs(last))
  {
    hide Wf, Source;
    var line := before + Source(c) + after;
    SourceHead(c);
    if before != "" { assert IsWs(before[0]) && line[0] == before[0]; }
    if line[0] == '{' {
      assert Source(c)[0] == line[0];
      DictEnds(c);
      if after != "" { assert IsWs(after[|after| - 1]) && line[|line| - 1] == after[|after| - 1]; }
    }
  }

  /** A line that opens an object and ends with a key is not well formed, and is reported all the same. */
  lemma CutLineReported(key: string, run: string)
    requires Decode(key).Some? && IsRun(run)
    ensures var line := "{" + (key + (":" + (run + ("," + (key + "")))));
            !WellFormed(line) && FindDuplicateKey(line) == Decode(key)
  {
    hide FindDuplicateKey, Decode, IsRun, Closes, Wf, Source, Ws;
    var line := "{" + (key + (":" + (run + ("," + (key + "")))));
    MalformedReported(key, run, "");
    DecodedQuoted(key);
    KeyEnds(key[1..]);
    assert line[|line| - 1] == key[|key| - 1];
    forall before, c, after | Ws(before) && Wf(c) && Ws(after)
      ensures line != before + Source(c) + after
    {
      ObjectLineEnds(before, c, after);
    }
  }

  lemma {:induction false} KeyEnds(s: string)
    requires Closes(s)
    ensures s[|s| - 1] == '"'
    decreases |s|
  {
    if s[0] == '\\' { KeyEnds(s[2..]); } else if s[0] != '"' { KeyEnds(s[1..]); }
  }
}
