/** The strict JSON tokenizer (verifier/token.go): a lexeme-preserving recursive descent parser.
    `Parse*` say what each step accepts at a cursor; class Tokenizer is the cursor that moves. */
module JsonTokenizer {
  import opened Wrappers
  import opened Text
  import opened JsonLexer

  const MAX_PARSE_DEPTH: nat := 500

  datatype Kind = NullKind | BoolKind | NumberKind | StringKind

  /** A parsed value remembers its source lexemes; `units` is the decoded string, for strings only. */
  datatype Value =
    | Scalar(kind: Kind, raw: string, units: seq<int>)
    | Arr(items: seq<Value>)
    | Obj(members: seq<Member>)

  datatype Member = Member(keyRaw: string, units: seq<int>, val: Value)

  /** The decoded key, on which lookup and duplicate detection compare. */
  function Key(m: Member): seq<int> { Runes(m.units) }

  datatype Error = Syntax | DupKey

  /** What was read and the cursor after it. */
  datatype Parsed<+T> = Ok(value: T, end: nat) | Err(error: Error)

  predicate Within<T>(p: Parsed<T>, s: string, i: nat) {
    p.Ok? ==> i < p.end <= |s|
  }

  /** An entry in front of a parsed list. */
  function Cons<T>(entry: T, rest: Parsed<seq<T>>): Parsed<seq<T>> {
    match rest
    case Err(e) => Err(e)
    case Ok(vs, n) => Ok([entry] + vs, n)
  }

  // ----- what each step accepts

  function ParseString(s: string, i: nat): (r: Parsed<seq<int>>)
    requires i <= |s|
    ensures Within(r, s, i)
  {
    if i == |s| || s[i] != '"' then Err(Syntax)
    else match StringBody(s, i + 1)
         case None => Err(Syntax)
         case Some(u) => Ok(u.units, u.end)
  }

  function ParseLiteral(s: string, i: nat, lit: string, kind: Kind): (r: Parsed<Value>)
    requires i <= |s| && lit != ""
    ensures Within(r, s, i)
  {
    if i + |lit| > |s| || s[i..i + |lit|] != lit then Err(Syntax) else Ok(Scalar(kind, lit, []), i + |lit|)
  }

  function ParseScalar(s: string, i: nat): (r: Parsed<Value>)
    requires i < |s|
    ensures Within(r, s, i)
  {
    var c := s[i];
    if c == '"' then
      match ParseString(s, i)
      case Ok(units, e) => Ok(Scalar(StringKind, s[i..e], units), e)
      case Err(e) => Err(e)
    else if c == '-' || IsDigit(c) then
      match NumberEnd(s, i)
      case None => Err(Syntax)
      case Some(e) => Ok(Scalar(NumberKind, s[i..e], []), e)
    else if c == 't' then ParseLiteral(s, i, "true", BoolKind)
    else if c == 'f' then ParseLiteral(s, i, "false", BoolKind)
    else if c == 'n' then ParseLiteral(s, i, "null", NullKind)
    else Err(Syntax)
  }

  function ParseValue(s: string, i: nat, depth: nat): (r: Parsed<Value>)
    requires i <= |s|
    ensures Within(r, s, i)
    decreases |s| - i, 2
  {
    if depth > MAX_PARSE_DEPTH || i == |s| then Err(Syntax)
    else if s[i] == '{' then
      var w := WsEnd(s, i + 1);
      if w < |s| && s[w] == '}' then Ok(Obj([]), w + 1)
      else
        match ParseMembers(s, w, depth, {})
        case Ok(ms, e) => Ok(Obj(ms), e)
        case Err(e) => Err(e)
    else if s[i] == '[' then
      var w := WsEnd(s, i + 1);
      if w < |s| && s[w] == ']' then Ok(Arr([]), w + 1)
      else
        match ParseItems(s, w, depth)
        case Ok(vs, e) => Ok(Arr(vs), e)
        case Err(e) => Err(e)
    else ParseScalar(s, i)
  }

  /** A quoted key and its colon, with the whitespace around them. */
  function ParseKey(s: string, i: nat, seen: set<seq<int>>): (r: Parsed<(string, seq<int>)>)
    requires i <= |s|
    ensures Within(r, s, i)
  {
    var w := WsEnd(s, i);
    match ParseString(s, w)
    case Err(e) => Err(e)
    case Ok(units, q) =>
      if Runes(units) in seen then Err(DupKey)
      else
        var c := WsEnd(s, q);
        if c == |s| || s[c] != ':' then Err(Syntax)
        else Ok((s[w..q], units), WsEnd(s, c + 1))
  }

  /** One member and the whitespace after it. */
  function ParseMember(s: string, i: nat, depth: nat, seen: set<seq<int>>): (r: Parsed<Member>)
    requires i <= |s|
    ensures Within(r, s, i)
    decreases |s| - i, 3
  {
    match ParseKey(s, i, seen)
    case Err(e) => Err(e)
    case Ok((raw, units), k) =>
      match ParseValue(s, k, depth + 1)
      case Err(e) => Err(e)
      case Ok(v, n) => Ok(Member(raw, units, v), WsEnd(s, n))
  }

  /** The members from the cursor on, up to and including the closing brace. */
  function ParseMembers(s: string, i: nat, depth: nat, seen: set<seq<int>>): (r: Parsed<seq<Member>>)
    requires i <= |s|
    ensures Within(r, s, i)
    decreases |s| - i, 4
  {
    match ParseMember(s, i, depth, seen)
    case Err(e) => Err(e)
    case Ok(m, p) =>
      if p == |s| then Err(Syntax)
      else if s[p] == '}' then Ok([m], p + 1)
      else if s[p] != ',' then Err(Syntax)
      else Cons(m, ParseMembers(s, p + 1, depth, seen + {Key(m)}))
  }

  /** One item and the whitespace around it. */
  function ParseItem(s: string, i: nat, depth: nat): (r: Parsed<Value>)
    requires i <= |s|
    ensures Within(r, s, i)
    decreases |s| - i, 3
  {
    match ParseValue(s, WsEnd(s, i), depth + 1)
    case Err(e) => Err(e)
    case Ok(v, n) => Ok(v, WsEnd(s, n))
  }

  /** The items from the cursor on, up to and including the closing bracket. */
  function ParseItems(s: string, i: nat, depth: nat): (r: Parsed<seq<Value>>)
    requires i <= |s|
    ensures Within(r, s, i)
    decreases |s| - i, 4
  {
    match ParseItem(s, i, depth)
    case Err(e) => Err(e)
    case Ok(v, p) =>
      if p == |s| then Err(Syntax)
      else if s[p] == ']' then Ok([v], p + 1)
      else if s[p] != ',' then Err(Syntax)
      else Cons(v, ParseItems(s, p + 1, depth))
  }

  /** parseLine: exactly one value on the line. */
  function ParseLine(s: string): Parsed<Value> {
    match ParseValue(s, WsEnd(s, 0), 0)
    case Err(e) => Err(e)
    case Ok(v, n) => if WsEnd(s, n) != |s| then Err(Syntax) else Ok(v, |s|)
  }

  // ----- the cursor

  /** The source's (value, error) pairs. */
  datatype Outcome<+T> = Got(value: T) | Failed(error: Error)

  /** A step of the cursor delivers what the text at the cursor holds, and stops after it. */
  predicate Delivers<T(==)>(p: Parsed<T>, r: Outcome<T>, pos: nat) {
    match p
    case Ok(v, e) => r == Got(v) && pos == e
    case Err(e) => r == Failed(e)
  }

  /** The same for a part of a lexeme. */
  predicate Reaches(p: Option<nat>, ok: bool, pos: nat) {
    match p case None => !ok case Some(e) => ok && pos == e
  }

  /** Reading a list entry by entry: what was gathered so far, then the rest. */
  predicate Gathered<T(==)>(whole: Parsed<seq<T>>, rest: Parsed<seq<T>>, sofar: seq<T>) {
    match rest
    case Err(e) => whole == Err(e)
    case Ok(vs, n) => whole == Ok(sofar + vs, n)
  }

  lemma GatheredStart<T>(whole: Parsed<seq<T>>)
    ensures Gathered(whole, whole, [])
  {
    if whole.Ok? { assert [] + whole.value == whole.value; }
  }

  lemma GatheredStep<T>(whole: Parsed<seq<T>>, rest: Parsed<seq<T>>, sofar: seq<T>, entry: T)
    requires Gathered(whole, Cons(entry, rest), sofar)
    ensures Gathered(whole, rest, sofar + [entry])
  {
    if rest.Ok? { assert sofar + ([entry] + rest.value) == sofar + [entry] + rest.value; }
  }

  /** Reading a string element by element. */
  predicate Decoded(whole: Option<Units>, rest: Option<Units>, sofar: seq<int>) {
    match rest
    case None => whole == None
    case Some(u) => whole == Some(Units(sofar + u.units, u.end))
  }

  lemma DecodedStep(whole: Option<Units>, s: string, i: nat, sofar: seq<int>)
    requires i < |s| && s[i] != '"' && Decoded(whole, StringBody(s, i), sofar)
    ensures match Element(s, i)
            case None => whole == None
            case Some(e) => Decoded(whole, StringBody(s, e.end), sofar + e.units)
  {
    hide Element;
    if Element(s, i).Some? && StringBody(s, Element(s, i).value.end).Some? {
      var e := Element(s, i).value;
      var f := StringBody(s, e.end).value;
      assert sofar + (e.units + f.units) == sofar + e.units + f.units;
    }
  }

  /** `u` is the value of the hex digits after cursor `p` that come before digit `i`. */
  ghost predicate HexSoFar(s: string, p: nat, i: int, u: int)
    requires p + 5 <= |s|
  {
    && 1 <= i <= 5
    && (i > 1 ==> HexValue(s[p + 1]).Some?)
    && (i > 2 ==> HexValue(s[p + 2]).Some?)
    && (i > 3 ==> HexValue(s[p + 3]).Some?)
    && (i > 4 ==> HexValue(s[p + 4]).Some?)
    && u == (if i == 1 then 0
             else if i == 2 then HexValue(s[p + 1]).value
             else if i == 3 then HexValue(s[p + 1]).value * 16 + HexValue(s[p + 2]).value
             else if i == 4 then (HexValue(s[p + 1]).value * 16 + HexValue(s[p + 2]).value) * 16 + HexValue(s[p + 3]).value
             else Hex4(s, p).value)
  }

  class Tokenizer {
    const data: string
    var pos: nat

    constructor (data: string)
      ensures this.data == data && pos == 0
    {
      this.data := data;
      pos := 0;
    }

    method SkipWs()
      requires pos <= |data|
      modifies this
      ensures pos == WsEnd(data, old(pos))
    {
      while pos < |data| && IsWs(data[pos])
        invariant pos <= |data| && WsEnd(data, pos) == WsEnd(data, old(pos))
      {
        pos := pos + 1;
      }
    }

    method SkipDigits()
      requires pos <= |data|
      modifies this
      ensures pos == DigitsEnd(data, old(pos))
    {
      while pos < |data| && IsDigit(data[pos])
        invariant pos <= |data| && DigitsEnd(data, pos) == DigitsEnd(data, old(pos))
      {
        pos := pos + 1;
      }
    }

    /** parseHex4: four hex digits after the 'u' at the cursor. */
    method ReadHex4() returns (r: Option<int>)
      requires pos < |data|
      modifies this
      ensures r == Hex4(data, old(pos)) && pos == if r.Some? then old(pos) + 5 else old(pos)
    {
      if pos + 5 > |data| { return None; }
      var u, i := 0, 1;
      while i <= 4
        invariant HexSoFar(data, pos, i, u)
      {
        var nib := HexValue(data[pos + i]);
        if nib.None? { return None; }
        u := u * 16 + nib.value;
        i := i + 1;
      }
      pos := pos + 5;
      return Some(u);
    }

    /** One element of a string: a raw character or an escape. */
    method ReadElement() returns (r: Option<seq<int>>)
      requires pos < |data| && data[pos] != '"'
      modifies this
      ensures match Element(data, old(pos))
              case None => r == None
              case Some(e) => r == Some(e.units) && pos == e.end
    {
      if data[pos] == '\\' {
        pos := pos + 1;
        if pos >= |data| { return None; }
        if data[pos] == 'u' {
          var u := ReadHex4();
          return if u.None? then None else Some([u.value]);
        }
        var e := SimpleEscape(data[pos]);
        if e.None? { return None; }
        pos := pos + 1;
        return Some([e.value]);
      } else if data[pos] as int < 0x20 {
        return None;
      } else {
        var d := DecodeRune(data, pos);
        if d.None? { return None; }
        pos := pos + d.value.1;
        return Some(RuneUnits(d.value.0));
      }
    }

    /** parseString: the cursor is on the opening quote, or the read is refused. */
    method ReadString() returns (r: Outcome<seq<int>>)
      requires pos <= |data|
      modifies this
      ensures Delivers(ParseString(data, old(pos)), r, pos)
    {
      hide Element;
      if pos == |data| || data[pos] != '"' { return Failed(Syntax); }
      pos := pos + 1;
      ghost var whole := StringBody(data, pos);
      var units: seq<int> := [];
      assert whole.Some? ==> [] + whole.value.units == whole.value.units;
      while pos < |data|
        invariant pos <= |data| && Decoded(whole, StringBody(data, pos), units)
      {
        if data[pos] == '"' {
          pos := pos + 1;
          assert units + [] == units;
          return Got(units);
        }
        DecodedStep(whole, data, pos, units);
        var unit := ReadElement();
        if unit.None? { return Failed(Syntax); }
        units := units + unit.value;
      }
      return Failed(Syntax);
    }

    method ReadInt() returns (ok: bool)
      requires pos <= |data|
      modifies this
      ensures Reaches(IntEnd(data, old(pos)), ok, pos)
    {
      if pos >= |data| { return false; }
      if data[pos] == '0' {
        pos := pos + 1;
      } else if '1' <= data[pos] <= '9' {
        SkipDigits();
      } else {
        return false;
      }
      return true;
    }

    method ReadFraction() returns (ok: bool)
      requires pos <= |data|
      modifies this
      ensures Reaches(FracEnd(data, old(pos)), ok, pos)
    {
      if pos < |data| && data[pos] == '.' {
        pos := pos + 1;
        if pos >= |data| || !IsDigit(data[pos]) { return false; }
        SkipDigits();
      }
      return true;
    }

    method ReadExponent() returns (ok: bool)
      requires pos <= |data|
      modifies this
      ensures Reaches(ExpEnd(data, old(pos)), ok, pos)
    {
      if pos < |data| && (data[pos] == 'e' || data[pos] == 'E') {
        pos := pos + 1;
        if pos < |data| && (data[pos] == '+' || data[pos] == '-') { pos := pos + 1; }
        if pos >= |data| || !IsDigit(data[pos]) { return false; }
        SkipDigits();
      }
      return true;
    }

    method ReadNumber() returns (r: Outcome<Value>)
      requires pos < |data|
      modifies this
      ensures match NumberEnd(data, old(pos))
              case None => r == Failed(Syntax)
              case Some(e) => r == Got(Scalar(NumberKind, data[old(pos)..e], [])) && pos == e
    {
      hide IntEnd, FracEnd, ExpEnd;
      var start := pos;
      if data[pos] == '-' { pos := pos + 1; }
      var ok := ReadInt();
      if !ok { return Failed(Syntax); }
      ok := ReadFraction();
      if !ok { return Failed(Syntax); }
      ok := ReadExponent();
      if !ok { return Failed(Syntax); }
      return Got(Scalar(NumberKind, data[start..pos], []));
    }

    method ReadLiteral(lit: string, kind: Kind) returns (r: Outcome<Value>)
      requires pos < |data| && lit != ""
      modifies this
      ensures Delivers(ParseLiteral(data, old(pos), lit, kind), r, pos)
    {
      if pos + |lit| > |data| || data[pos..pos + |lit|] != lit { return Failed(Syntax); }
      pos := pos + |lit|;
      return Got(Scalar(kind, lit, []));
    }

    method ReadScalar() returns (r: Outcome<Value>)
      requires pos < |data|
      modifies this
      ensures Delivers(ParseScalar(data, old(pos)), r, pos)
    {
      hide NumberEnd;
      var c, start := data[pos], pos;
      if c == '"' {
        var u := ReadString();
        if u.Failed? { return Failed(u.error); }
        return Got(Scalar(StringKind, data[start..pos], u.value));
      } else if c == '-' || IsDigit(c) {
        r := ReadNumber();
      } else if c == 't' {
        r := ReadLiteral("true", BoolKind);
      } else if c == 'f' {
        r := ReadLiteral("false", BoolKind);
      } else if c == 'n' {
        r := ReadLiteral("null", NullKind);
      } else {
        return Failed(Syntax);
      }
    }

    /** A quoted key, its colon and the whitespace around them; `seen` are the keys used so far. */
    method ReadKey(seen: set<seq<int>>) returns (r: Outcome<(string, seq<int>)>)
      requires pos <= |data|
      modifies this
      ensures Delivers(ParseKey(data, old(pos), seen), r, pos)
    {
      SkipWs();
      var start := pos;
      var u := ReadString();
      if u.Failed? { return Failed(u.error); }
      var raw := data[start..pos];
      if Runes(u.value) in seen { return Failed(DupKey); }
      SkipWs();
      if pos >= |data| || data[pos] != ':' { return Failed(Syntax); }
      pos := pos + 1;
      SkipWs();
      return Got((raw, u.value));
    }

    method ReadValue(depth: nat) returns (r: Outcome<Value>)
      requires pos <= |data|
      modifies this
      ensures Delivers(ParseValue(data, old(pos), depth), r, pos)
      decreases |data| - pos, 1
    {
      hide ParseScalar;
      if depth > MAX_PARSE_DEPTH || pos >= |data| { return Failed(Syntax); }
      if data[pos] == '{' {
        r := ReadObject(depth);
      } else if data[pos] == '[' {
        r := ReadArray(depth);
      } else {
        r := ReadScalar();
      }
    }

    /** One key, colon and value, and the whitespace around them. */
    method ReadMember(depth: nat, seen: set<seq<int>>) returns (r: Outcome<Member>)
      requires pos <= |data|
      modifies this
      ensures Delivers(ParseMember(data, old(pos), depth, seen), r, pos)
      decreases |data| - pos, 2
    {
      hide ParseKey, ParseValue;
      var key := ReadKey(seen);
      if key.Failed? { return Failed(key.error); }
      var v := ReadValue(depth + 1);
      if v.Failed? { return Failed(v.error); }
      SkipWs();
      return Got(Member(key.value.0, key.value.1, v.value));
    }

    method ReadObject(depth: nat) returns (r: Outcome<Value>)
      requires pos < |data| && data[pos] == '{' && depth <= MAX_PARSE_DEPTH
      modifies this
      ensures Delivers(ParseValue(data, old(pos), depth), r, pos)
      decreases |data| - pos, 0
    {
      hide ParseScalar, ParseMember;
      pos := pos + 1;
      SkipWs();
      if pos < |data| && data[pos] == '}' {
        pos := pos + 1;
        return Got(Obj([]));
      }
      ghost var whole := ParseMembers(data, pos, depth, {});
      var members: seq<Member> := [];
      var seen: set<seq<int>> := {};
      GatheredStart(whole);
      while true
        invariant old(pos) < pos <= |data|
        invariant Gathered(whole, ParseMembers(data, pos, depth, seen), members)
        decreases |data| - pos
      {
        var member := ReadMember(depth, seen);
        if member.Failed? { return Failed(member.error); }
        var m := member.value;
        if pos >= |data| { return Failed(Syntax); }
        if data[pos] == '}' {
          pos := pos + 1;
          return Got(Obj(members + [m]));
        }
        if data[pos] != ',' { return Failed(Syntax); }
        pos := pos + 1;
        seen := seen + {Key(m)};
        GatheredStep(whole, ParseMembers(data, pos, depth, seen), members, m);
        members := members + [m];
      }
    }

    /** One item and the whitespace around it. */
    method ReadItem(depth: nat) returns (r: Outcome<Value>)
      requires pos <= |data|
      modifies this
      ensures Delivers(ParseItem(data, old(pos), depth), r, pos)
      decreases |data| - pos, 2
    {
      hide ParseValue;
      SkipWs();
      r := ReadValue(depth + 1);
      if r.Failed? { return; }
      SkipWs();
    }

    method ReadArray(depth: nat) returns (r: Outcome<Value>)
      requires pos < |data| && data[pos] == '[' && depth <= MAX_PARSE_DEPTH
      modifies this
      ensures Delivers(ParseValue(data, old(pos), depth), r, pos)
      decreases |data| - pos, 0
    {
      hide ParseScalar, ParseItem;
      pos := pos + 1;
      SkipWs();
      if pos < |data| && data[pos] == ']' {
        pos := pos + 1;
        return Got(Arr([]));
      }
      ghost var whole := ParseItems(data, pos, depth);
      var items: seq<Value> := [];
      GatheredStart(whole);
      while true
        invariant old(pos) < pos <= |data|
        invariant Gathered(whole, ParseItems(data, pos, depth), items)
        decreases |data| - pos
      {
        var v := ReadItem(depth);
        if v.Failed? { return Failed(v.error); }
        if pos >= |data| { return Failed(Syntax); }
        if data[pos] == ']' {
          pos := pos + 1;
          return Got(Arr(items + [v.value]));
        }
        if data[pos] != ',' { return Failed(Syntax); }
        pos := pos + 1;
        GatheredStep(whole, ParseItems(data, pos, depth), items, v.value);
        items := items + [v.value];
      }
    }
  }

  /** parseLine on a fresh cursor. */
  method ReadLine(line: string) returns (r: Outcome<Value>)
    ensures match ParseLine(line) case Ok(v, _) => r == Got(v) case Err(e) => r == Failed(e)
  {
    hide ParseValue;
    var t := new Tokenizer(line);
    t.SkipWs();
    r := t.ReadValue(0);
    if r.Failed? { return; }
    t.SkipWs();
    if t.pos != |line| { return Failed(Syntax); }
  }
}
