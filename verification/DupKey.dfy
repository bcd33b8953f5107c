/** The one-pass duplicate-key scanner (findDuplicateKey in src/audit/chain.ts). It runs on a line before
    parsing; chars stand for code points. */
module DupKey {
  import opened Wrappers
  import opened JsonLexer

  type KeyUnits = seq<int>

  // ----- decoding a key

  /** One element of a string literal, as JSON.parse reads it: code units and the cursor after. */
  function KeyElement(s: string, i: nat): (r: Option<(KeyUnits, nat)>)
    requires i < |s|
    ensures r.Some? ==> i < r.value.1 <= |s|
  {
    if s[i] == '\\' then
      if i + 1 == |s| then None
      else if s[i + 1] == 'u' then
        match Hex4(s, i + 1)
        case None => None
        case Some(u) => Some(([u], i + 6))
      else
        match SimpleEscape(s[i + 1])
        case None => None
        case Some(u) => Some(([u], i + 2))
    else if s[i] as int < 0x20 then None
    else Some((RuneUnits(s[i] as int), i + 1))
  }

  /** The rest of a string literal from `i`, which must end the text. */
  function KeyBody(s: string, i: nat): Option<KeyUnits>
    decreases |s| - i
  {
    if i >= |s| then None
    else if s[i] == '"' then (if i + 1 == |s| then Some([]) else None)
    else
      match KeyElement(s, i)
      case None => None
      case Some((u, e)) => match KeyBody(s, e) case None => None case Some(v) => Some(u + v)
  }

  /** JSON.parse of a string lexeme; None where it throws. */
  function Decode(lexeme: string): Option<KeyUnits> {
    if lexeme == "" || lexeme[0] != '"' then None else KeyBody(lexeme, 1)
  }

  // ----- what the scanner computes, on any line

  predicate Is(line: string, at: nat, c: char) { at < |line| && line[at] == c }

  function SkipSpace(line: string, at: nat): (e: nat)
    ensures at <= e && (at <= |line| ==> e <= |line|)
    decreases |line| - at
  {
    if at < |line| && IsWs(line[at]) then SkipSpace(line, at + 1) else at
  }

  /** From inside a string: past the closing quote, or off the end without one. A backslash skips two. */
  function StringEnd(line: string, at: nat): (r: (bool, nat))
    ensures at <= r.1 && (r.0 ==> at < r.1 <= |line|)
    decreases |line| - at
  {
    if at >= |line| then (false, at)
    else if line[at] == '\\' then StringEnd(line, at + 2)
    else if line[at] == '"' then (true, at + 1)
    else StringEnd(line, at + 1)
  }

  /** readString: the lexeme, quotes included, and the cursor. */
  function ReadString(line: string, at: nat): (r: (Option<string>, nat))
    ensures at <= r.1 && (r.0.Some? ==> at < r.1 <= |line| && r.0.value == line[at..r.1])
  {
    if !Is(line, at, '"') then (None, at)
    else
      var (found, e) := StringEnd(line, at + 1);
      (if found then Some(line[at..e]) else None, e)
  }

  predicate Structural(c: char) { c == ',' || c == '}' || c == ']' || IsWs(c) }

  function AtomEnd(line: string, at: nat): (e: nat)
    ensures at <= e
    decreases |line| - at
  {
    if at < |line| && !Structural(line[at]) then AtomEnd(line, at + 1) else at
  }

  /** The cursor after a step, and the duplicate once one is found. */
  datatype Scan = Scan(at: nat, duplicate: Option<KeyUnits>)

  function Left(line: string, at: nat): nat { if at <= |line| then |line| - at else 0 }

  function ScanValue(line: string, at: nat): (r: Scan)
    ensures at <= r.at
    decreases Left(line, at), 1
  {
    var p := SkipSpace(line, at);
    if Is(line, p, '{') then
      var q := SkipSpace(line, p + 1);
      if Is(line, q, '}') then Scan(q + 1, None) else ScanMembers(line, q, {})
    else if Is(line, p, '[') then
      var q := SkipSpace(line, p + 1);
      if Is(line, q, ']') then Scan(q + 1, None) else ScanItems(line, q)
    else if Is(line, p, '"') then Scan(ReadString(line, p).1, None)
    else Scan(AtomEnd(line, p), None)
  }

  function ScanMembers(line: string, at: nat, seen: set<KeyUnits>): (r: Scan)
    ensures at <= r.at
    decreases Left(line, at), 2
  {
    var p := SkipSpace(line, at);
    var (lexeme, q) := ReadString(line, p);
    if lexeme.None? then Scan(q, None)
    else
      match Decode(lexeme.value)
      case None => Scan(q, None)
      case Some(key) =>
        if key in seen then Scan(q, Some(key))
        else
          var r := SkipSpace(line, q);
          if !Is(line, r, ':') then Scan(r, None)
          else
            var v := ScanValue(line, r + 1);
            if v.duplicate.Some? then v
            else
              var t := SkipSpace(line, v.at);
              if Is(line, t, ',') then ScanMembers(line, t + 1, seen + {key}) else Scan(t + 1, None)
  }

  function ScanItems(line: string, at: nat): (r: Scan)
    ensures at <= r.at
    decreases Left(line, at), 2
  {
    var v := ScanValue(line, at);
    if v.duplicate.Some? then v
    else
      var t := SkipSpace(line, v.at);
      if Is(line, t, ',') then ScanItems(line, t + 1) else Scan(t + 1, None)
  }

  function FindDuplicateKey(line: string): Option<KeyUnits> { ScanValue(line, 0).duplicate }

  /** A new key was read at `at`, and its colon ends at `e`: the scan goes on with the value. */
  predicate KeyRead(line: string, at: nat, seen: set<KeyUnits>, key: KeyUnits, e: nat) {
    && at < e <= |line|
    && ScanMembers(line, at, seen)
       == var v := ScanValue(line, e);
          if v.duplicate.Some? then v
          else
            var t := SkipSpace(line, v.at);
            if Is(line, t, ',') then ScanMembers(line, t + 1, seen + {key}) else Scan(t + 1, None)
  }

  // ----- the scanner

  /** One cursor over the line, shared by all steps, and the duplicate that stops them. */
  class Scanner {
    const line: string
    var at: nat
    var duplicate: Option<KeyUnits>

    constructor (line: string)
      ensures this.line == line && at == 0 && duplicate == None
    {
      this.line, at, duplicate := line, 0, None;
    }

    method Skip()
      modifies this`at
      ensures at == SkipSpace(line, old(at))
    {
      while at < |line| && IsWs(line[at])
        invariant SkipSpace(line, at) == SkipSpace(line, old(at))
      {
        at := at + 1;
      }
    }

    method Str() returns (lexeme: Option<string>)
      modifies this`at
      ensures (lexeme, at) == ReadString(line, old(at))
    {
      if !(at < |line| && line[at] == '"') { return None; }
      var start := at;
      at := at + 1;
      while at < |line|
        invariant StringEnd(line, at) == StringEnd(line, start + 1) && at > start
        decreases |line| - at
      {
        if line[at] == '\\' {
          at := at + 2;
        } else if line[at] == '"' {
          at := at + 1;
          return Some(line[start..at]);
        } else {
          at := at + 1;
        }
      }
      return None;
    }

    method Value()
      requires duplicate == None
      modifies this
      ensures Scan(at, duplicate) == ScanValue(line, old(at))
      decreases Left(line, at), 1
    {
      hide ReadString, ScanMembers, ScanItems;
      Skip();
      if at < |line| && line[at] == '{' { Object(); return; }
      if at < |line| && line[at] == '[' { Array(); return; }
      if at < |line| && line[at] == '"' {
        var lexeme := Str();
        return;
      }
      ghost var begun := at;
      while at < |line| && !Structural(line[at])
        invariant duplicate == None && AtomEnd(line, at) == AtomEnd(line, begun)
      {
        at := at + 1;
      }
    }

    /** A key and its colon. None when the scan of this object stops here, with or without a duplicate. */
    method MemberKey(seen: set<KeyUnits>) returns (key: Option<KeyUnits>)
      requires duplicate == None && at <= |line|
      modifies this
      ensures match key
              case None => Scan(at, duplicate) == ScanMembers(line, old(at), seen)
              case Some(k) => duplicate == None && KeyRead(line, old(at), seen, k, at)
    {
      hide ReadString, Decode, ScanValue, SkipSpace;
      Skip();
      var lexeme := Str();
      if lexeme.None? { return None; }
      var decoded := Decode(lexeme.value);
      if decoded.None? { return None; }
      if decoded.value in seen {
        duplicate := decoded;
        return None;
      }
      Skip();
      if !(at < |line| && line[at] == ':') { return None; }
      at := at + 1;
      return decoded;
    }

    method Object()
      requires duplicate == None && Is(line, at, '{')
      modifies this
      ensures var q := SkipSpace(line, old(at) + 1);
              Scan(at, duplicate) == if Is(line, q, '}') then Scan(q + 1, None) else ScanMembers(line, q, {})
      decreases Left(line, at), 0
    {
      hide ReadString, Decode, ScanValue, SkipSpace;
      at := at + 1;
      var seen: set<KeyUnits> := {};
      Skip();
      if at < |line| && line[at] == '}' {
        at := at + 1;
        return;
      }
      ghost var whole := ScanMembers(line, at, {});
      while true
        invariant old(at) < at <= |line| && duplicate == None
        invariant ScanMembers(line, at, seen) == whole
        decreases |line| - at
      {
        var key := MemberKey(seen);
        if key.None? { return; }
        seen := seen + {key.value};
        Value();
        if duplicate.Some? { return; }
        Skip();
        if at < |line| && line[at] == ',' {
          at := at + 1;
          continue;
        }
        at := at + 1;
        return;
      }
    }

    method Array()
      requires duplicate == None && Is(line, at, '[')
      modifies this
      ensures var q := SkipSpace(line, old(at) + 1);
              Scan(at, duplicate) == if Is(line, q, ']') then Scan(q + 1, None) else ScanItems(line, q)
      decreases Left(line, at), 0
    {
      hide ScanValue, SkipSpace;
      at := at + 1;
      Skip();
      if at < |line| && line[at] == ']' {
        at := at + 1;
        return;
      }
      ghost var whole := ScanItems(line, at);
      while true
        invariant old(at) < at <= |line| && duplicate == None
        invariant ScanItems(line, at) == whole
        decreases |line| - at
      {
        Value();
        if duplicate.Some? { return; }
        Skip();
        if at < |line| && line[at] == ',' {
          at := at + 1;
          continue;
        }
        at := at + 1;
        return;
      }
    }
  }

  method Find(line: string) returns (r: Option<KeyUnits>)
    ensures r == FindDuplicateKey(line)
  {
    var scanner := new Scanner(line);
    scanner.Value();
    return scanner.duplicate;
  }
}
