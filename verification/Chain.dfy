/** The per-record hash chain (src/audit/chain.ts, verifyChainFile in src/audit/file-sink.ts). */
module Chain {
  import opened Wrappers
  import opened Text

  /** SHA-256 in hex, kept abstract: any function of the text. */
  type Hash = string -> string

  // ----- what a record's hash is computed over

  datatype ChainState = ChainState(chainIndex: int, previousHash: Option<string>)

  const FRESH := ChainState(0, None)

  /** hashChainMaterial: JSON.stringify of the position, the link and the canonical payload. */
  function HashMaterial(payload: string, state: ChainState): string {
    INDEX_KEY + (Integer(state.chainIndex) + [','] + LinkPart(payload, state.previousHash))
  }

  const INDEX_KEY := "{\"chainIndex\":"
  const LINK_KEY := "\"previousHash\":"
  const PAYLOAD_KEY := ",\"algorithm\":\"sha256\",\"payload\":"

  function LinkPart(payload: string, previousHash: Option<string>): string {
    LINK_KEY + (QuoteOrNull(previousHash) + PayloadPart(payload))
  }

  function PayloadPart(payload: string): string { PAYLOAD_KEY + (Quote(payload) + "}") }

  lemma PayloadPartInjective(p: string, q: string)
    requires PayloadPart(p) == PayloadPart(q)
    ensures p == q
  {
    hide Quote;
    SameHead(PAYLOAD_KEY, Quote(p) + "}", Quote(q) + "}");
    QuotePrefixFree(p, q, "}", "}");
  }

  lemma LinkPartInjective(p: string, s: Option<string>, q: string, t: Option<string>)
    requires LinkPart(p, s) == LinkPart(q, t)
    ensures p == q && s == t
  {
    hide QuoteOrNull, PayloadPart;
    SameHead(LINK_KEY, QuoteOrNull(s) + PayloadPart(p), QuoteOrNull(t) + PayloadPart(q));
    QuoteOrNullPrefixFree(s, t, PayloadPart(p), PayloadPart(q));
    PayloadPartInjective(p, q);
  }

  /** Position, link and payload are recoverable from the hashed text. */
  lemma MaterialInjective(p: string, s: ChainState, q: string, t: ChainState)
    ensures HashMaterial(p, s) == HashMaterial(q, t) <==> p == q && s == t
  {
    hide Integer, LinkPart;
    if HashMaterial(p, s) == HashMaterial(q, t) {
      var i, j, x, y := Integer(s.chainIndex), Integer(t.chainIndex), LinkPart(p, s.previousHash), LinkPart(q, t.previousHash);
      SameHead(INDEX_KEY, i + [','] + x, j + [','] + y);
      IntegerNoComma(s.chainIndex);
      IntegerNoComma(t.chainIndex);
      CutAt(i, j, ',', x, y);
      IntegerInjective(s.chainIndex, t.chainIndex);
      LinkPartInjective(p, s.previousHash, q, t.previousHash);
    }
  }

  // ----- records

  datatype Integrity = Integrity(chainIndex: int, hash: string, previousHash: Option<string>)

  /** A record as the verifier sees it: its canonical payload and its integrity block. */
  datatype Event = Event(payload: string, integrity: Integrity)

  function StateOf(e: Event): ChainState { ChainState(e.integrity.chainIndex, e.integrity.previousHash) }

  function Material(e: Event): string { HashMaterial(e.payload, StateOf(e)) }

  /** chainAuditEvent. */
  function ChainEvent(hash: Hash, payload: string, state: ChainState): Event {
    Event(payload, Integrity(state.chainIndex, hash(HashMaterial(payload, state)), state.previousHash))
  }

  /** The state the writer is in after a record, and the resume state read back from it. */
  function After(e: Event): ChainState { ChainState(e.integrity.chainIndex + 1, Some(e.integrity.hash)) }

  /** What one line of a record file turns out to be. The duplicate check comes before parsing. */
  datatype Line = Duplicate | NotJson | NoIntegrity | Record(event: Event)

  type Reader = string -> Line

  /** The drop count a payload declares when it is a gap marker. */
  type Gaps = string -> Option<nat>

  // ----- walking a file

  datatype Problem = DupKeyAt(n: nat) | NotJsonAt(n: nat) | NoIntegrityAt(n: nat)
                   | IndexGapAt(n: nat) | LinkBreakAt(n: nat) | HashMismatchAt(n: nat)

  datatype Note = TornTail(n: nat) | GapDeclared(n: nat, dropped: nat)

  /** A nonblank line, and whether it is the file's unterminated last one. */
  datatype Chunk = Chunk(text: string, torn: bool)

  /** The nonblank lines of a file. Only what follows the last terminator can be torn. */
  function Chunks(raw: string): seq<Chunk> {
    var lines := Split(raw);
    Nonblank(lines[..|lines| - 1], false) + Nonblank([lines[|lines| - 1]], true)
  }

  function Nonblank(lines: seq<string>, torn: bool): seq<Chunk> {
    if lines == [] then []
    else if Blank(lines[0]) then Nonblank(lines[1..], torn)
    else [Chunk(lines[0], torn)] + Nonblank(lines[1..], torn)
  }

  /** The problems one record has against what the walk expects. */
  function RecordProblems(hash: Hash, e: Event, expected: Option<ChainState>, n: nat): seq<Problem> {
    (if expected.Some? && e.integrity.chainIndex != expected.value.chainIndex then [IndexGapAt(n)] else [])
    + (if expected.Some? && e.integrity.previousHash != expected.value.previousHash then [LinkBreakAt(n)] else [])
    + (if hash(Material(e)) != e.integrity.hash then [HashMismatchAt(n)] else [])
  }

  function LineProblems(read: Reader, hash: Hash, c: Chunk, expected: Option<ChainState>, n: nat): seq<Problem> {
    match read(c.text)
    case Duplicate => [DupKeyAt(n)]
    case NotJson => if c.torn then [] else [NotJsonAt(n)]
    case NoIntegrity => [NoIntegrityAt(n)]
    case Record(e) => RecordProblems(hash, e, expected, n)
  }

  function LineNotes(read: Reader, gaps: Gaps, c: Chunk, n: nat): seq<Note> {
    match read(c.text)
    case NotJson => if c.torn then [TornTail(n)] else []
    case Record(e) => if gaps(e.payload).Some? then [GapDeclared(n, gaps(e.payload).value)] else []
    case _ => []
  }

  function Expect(read: Reader, c: Chunk, expected: Option<ChainState>): Option<ChainState> {
    match read(c.text) case Record(e) => Some(After(e)) case _ => expected
  }

  function Problems(read: Reader, hash: Hash, chunks: seq<Chunk>, expected: Option<ChainState>, n: nat): seq<Problem> {
    if chunks == [] then []
    else LineProblems(read, hash, chunks[0], expected, n)
         + Problems(read, hash, chunks[1..], Expect(read, chunks[0], expected), n + 1)
  }

  function Notes(read: Reader, gaps: Gaps, chunks: seq<Chunk>, n: nat): seq<Note> {
    if chunks == [] then [] else LineNotes(read, gaps, chunks[0], n) + Notes(read, gaps, chunks[1..], n + 1)
  }

  datatype Verification = Verification(ok: bool, records: nat, problems: seq<Problem>, notes: seq<Note>)

  function Verified(read: Reader, gaps: Gaps, hash: Hash, raw: string): Verification {
    var cs := Chunks(raw);
    var ps := Problems(read, hash, cs, None, 1);
    Verification(ps == [], |cs|, ps, Notes(read, gaps, cs, 1))
  }

  /** The walk's treatment of one line: what it finds, what it notes and what it expects next. */
  method VerifyLine(read: Reader, gaps: Gaps, hash: Hash, c: Chunk, expected: Option<ChainState>, n: nat)
    returns (problems: seq<Problem>, notes: seq<Note>, next: Option<ChainState>)
    ensures problems == LineProblems(read, hash, c, expected, n)
    ensures notes == LineNotes(read, gaps, c, n)
    ensures next == Expect(read, c, expected)
  {
    problems, notes, next := [], [], expected;
    match read(c.text) {
      case Duplicate => problems := [DupKeyAt(n)];
      case NotJson =>
        if c.torn { notes := [TornTail(n)]; } else { problems := [NotJsonAt(n)]; }
      case NoIntegrity => problems := [NoIntegrityAt(n)];
      case Record(e) =>
        if expected.Some? && e.integrity.chainIndex != expected.value.chainIndex {
          problems := problems + [IndexGapAt(n)];
        }
        if expected.Some? && e.integrity.previousHash != expected.value.previousHash {
          problems := problems + [LinkBreakAt(n)];
        }
        if hash(Material(e)) != e.integrity.hash {
          problems := problems + [HashMismatchAt(n)];
        }
        if gaps(e.payload).Some? { notes := [GapDeclared(n, gaps(e.payload).value)]; }
        next := Some(After(e));
    }
  }

  /** verifyChainFile on a file's text. */
  method VerifyChainFile(read: Reader, gaps: Gaps, hash: Hash, raw: string) returns (v: Verification)
    ensures v == Verified(read, gaps, hash, raw)
  {
    hide LineProblems, LineNotes, Expect, Chunks;
    var cs := Chunks(raw);
    var problems: seq<Problem> := [];
    var notes: seq<Note> := [];
    var expected: Option<ChainState> := None;
    assert cs[0..] == cs;
    for i := 0 to |cs|
      invariant Problems(read, hash, cs, None, 1) == problems + Problems(read, hash, cs[i..], expected, i + 1)
      invariant Notes(read, gaps, cs, 1) == notes + Notes(read, gaps, cs[i..], i + 1)
    {
      assert cs[i..][1..] == cs[i + 1..];
      var found, said, next := VerifyLine(read, gaps, hash, cs[i], expected, i + 1);
      problems, notes, expected := problems + found, notes + said, next;
    }
    return Verification(problems == [], |cs|, problems, notes);
  }

  // ----- what a clean walk means

  /** The records of a file, in order: lines that are not one count toward nothing. */
  function Records(read: Reader, chunks: seq<Chunk>): seq<Event> {
    if chunks == [] then []
    else match read(chunks[0].text)
         case Record(e) => [e] + Records(read, chunks[1..])
         case _ => Records(read, chunks[1..])
  }

  function Events(read: Reader, raw: string): seq<Event> { Records(read, Chunks(raw)) }

  /** Every line is a record, except that an unterminated last one need not parse. */
  predicate Readable(read: Reader, chunks: seq<Chunk>) {
    forall i | 0 <= i < |chunks| :: read(chunks[i].text).Record? || (chunks[i].torn && read(chunks[i].text).NotJson?)
  }

  /** Every record hashes to its own hash and continues the one before it, the first one `expected`. */
  predicate ChainedFrom(hash: Hash, es: seq<Event>, expected: Option<ChainState>) {
    es != [] ==>
      && (expected.Some? ==> StateOf(es[0]) == expected.value)
      && hash(Material(es[0])) == es[0].integrity.hash
      && ChainedFrom(hash, es[1..], Some(After(es[0])))
  }

  predicate Chained(hash: Hash, es: seq<Event>) { ChainedFrom(hash, es, None) }

  lemma {:induction false} CleanWalk(read: Reader, hash: Hash, chunks: seq<Chunk>, expected: Option<ChainState>, n: nat)
    ensures Problems(read, hash, chunks, expected, n) == []
       <==> Readable(read, chunks) && ChainedFrom(hash, Records(read, chunks), expected)
    decreases chunks
  {
    if chunks != [] {
      var next := Expect(read, chunks[0], expected);
      CleanWalk(read, hash, chunks[1..], next, n + 1);
      assert Readable(read, chunks) <==>
        (read(chunks[0].text).Record? || (chunks[0].torn && read(chunks[0].text).NotJson?)) && Readable(read, chunks[1..]);
      match read(chunks[0].text)
      case Record(e) =>
        var es := Records(read, chunks);
        assert es[0] == e && es[1..] == Records(read, chunks[1..]);
      case _ =>
    }
  }

  /** A file verifies exactly when all its lines are records that chain, but for a torn last line. */
  lemma VerifiedExactly(read: Reader, gaps: Gaps, hash: Hash, raw: string)
    ensures Verified(read, gaps, hash, raw).ok
       <==> Readable(read, Chunks(raw)) && Chained(hash, Events(read, raw))
  {
    CleanWalk(read, hash, Chunks(raw), None, 1);
  }

  // ----- a hash commits to everything before it

  /** No two different texts of `texts` hash alike. */
  ghost predicate CollisionFree(hash: Hash, texts: set<string>) {
    forall x, y | x in texts && y in texts && hash(x) == hash(y) :: x == y
  }

  ghost function Materials(es: seq<Event>): set<string> { set i | 0 <= i < |es| :: Material(es[i]) }

  lemma {:induction false} ChainedAt(hash: Hash, es: seq<Event>, expected: Option<ChainState>, i: nat)
    requires ChainedFrom(hash, es, expected) && i < |es|
    ensures hash(Material(es[i])) == es[i].integrity.hash
    ensures i > 0 ==> StateOf(es[i]) == After(es[i - 1])
    ensures i == 0 && expected.Some? ==> StateOf(es[0]) == expected.value
  {
    hide Material, After, StateOf;
    if i > 0 { ChainedAt(hash, es[1..], Some(After(es[0])), i - 1); }
  }

  /** Two chains that share the hash of their c-th record share their first c records. */
  lemma {:induction false} SharedHashSharedPrefix(hash: Hash, a: seq<Event>, b: seq<Event>, c: nat, texts: set<string>)
    requires Chained(hash, a) && Chained(hash, b) && 0 < c <= |a| && c <= |b|
    requires a[c - 1].integrity.hash == b[c - 1].integrity.hash
    requires CollisionFree(hash, texts) && Materials(a[..c]) <= texts && Materials(b[..c]) <= texts
    ensures a[..c] == b[..c]
    decreases c
  {
    hide Material;
    var x, y := a[c - 1], b[c - 1];
    ChainedAt(hash, a, None, c - 1);
    ChainedAt(hash, b, None, c - 1);
    assert Material(a[..c][c - 1]) in Materials(a[..c]) && Material(b[..c][c - 1]) in Materials(b[..c]);
    SameMaterialSameEvent(x, y);
    assert a[..c] == a[..c - 1] + [x] && b[..c] == b[..c - 1] + [y];
    if c > 1 {
      assert After(a[c - 2]) == After(b[c - 2]);
      MaterialsPrefix(a, c - 1, c);
      MaterialsPrefix(b, c - 1, c);
      SharedHashSharedPrefix(hash, a, b, c - 1, texts);
    }
  }

  lemma MaterialsPrefix(es: seq<Event>, c: nat, d: nat)
    requires c <= d <= |es|
    ensures Materials(es[..c]) <= Materials(es[..d])
  {
    forall i | 0 <= i < c ensures Material(es[..c][i]) in Materials(es[..d]) {
      assert es[..c][i] == es[..d][i];
    }
  }

  lemma SameMaterialSameEvent(x: Event, y: Event)
    requires Material(x) == Material(y) && x.integrity.hash == y.integrity.hash
    ensures x == y
  {
    MaterialInjective(x.payload, StateOf(x), y.payload, StateOf(y));
  }
}
