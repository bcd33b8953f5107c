/** What the chain walk reports (verifyChainFile in src/audit/file-sink.ts), problem by problem and note by note: each
    line is judged against the last record before it. */
module ChainMeaning {
  import opened Wrappers
  import opened Chain

  /** What is to follow the last record among the first `n` lines; `start` when there is none. */
  function Due(read: Reader, cs: seq<Chunk>, n: nat, start: Option<ChainState>): Option<ChainState>
    requires n <= |cs|
  {
    if n == 0 then start
    else
      match read(cs[n - 1].text)
      case Record(e) => Some(ChainState(e.integrity.chainIndex + 1, Some(e.integrity.hash)))
      case _ => Due(read, cs, n - 1, start)
  }

  /** What each problem says of its line, under what was expected there. */
  predicate Says(read: Reader, hash: Hash, c: Chunk, expected: Option<ChainState>, n: nat, p: Problem) {
    match p
    case DupKeyAt(m) => m == n && read(c.text) == Duplicate
    case NotJsonAt(m) => m == n && read(c.text) == NotJson && !c.torn
    case NoIntegrityAt(m) => m == n && read(c.text) == NoIntegrity
    case IndexGapAt(m) =>
      m == n && read(c.text).Record? && expected.Some? && read(c.text).event.integrity.chainIndex != expected.value.chainIndex
    case LinkBreakAt(m) =>
      m == n && read(c.text).Record? && expected.Some? && read(c.text).event.integrity.previousHash != expected.value.previousHash
    case HashMismatchAt(m) =>
      m == n && read(c.text).Record?
      && var e := read(c.text).event;
         hash(HashMaterial(e.payload, ChainState(e.integrity.chainIndex, e.integrity.previousHash))) != e.integrity.hash
  }

  lemma LineSays(read: Reader, hash: Hash, c: Chunk, expected: Option<ChainState>, n: nat, p: Problem)
    ensures p in LineProblems(read, hash, c, expected, n) <==> Says(read, hash, c, expected, n, p)
  {
    hide HashMaterial;
  }

  /** Line `i`, counted from 0, is reported with `p`; lines are numbered from `n`. */
  predicate LineReported(read: Reader, hash: Hash, cs: seq<Chunk>, start: Option<ChainState>, n: nat, i: nat, p: Problem) {
    i < |cs| && Says(read, hash, cs[i], Due(read, cs, i, start), n + i, p)
  }

  lemma {:induction false} DueNext(read: Reader, cs: seq<Chunk>, n: nat, start: Option<ChainState>)
    requires n < |cs|
    ensures Due(read, cs[1..], n, Expect(read, cs[0], start)) == Due(read, cs, n + 1, start)
    decreases n
  {
    if n > 0 {
      DueNext(read, cs, n - 1, start);
      assert cs[1..][n - 1] == cs[n];
    } else {
      assert Due(read, cs, 0, start) == start;
    }
  }

  lemma ReportedNext(read: Reader, hash: Hash, cs: seq<Chunk>, start: Option<ChainState>, n: nat, i: nat, p: Problem)
    requires cs != []
    ensures LineReported(read, hash, cs[1..], Expect(read, cs[0], start), n + 1, i, p) <==> LineReported(read, hash, cs, start, n, i + 1, p)
  {
    hide Due, Says, Expect;
    if i + 1 < |cs| { DueNext(read, cs, i, start); }
  }

  lemma {:induction false} ReportedFrom(read: Reader, hash: Hash, cs: seq<Chunk>, start: Option<ChainState>, n: nat, p: Problem)
    ensures p in Problems(read, hash, cs, start, n) <==> exists i: nat :: LineReported(read, hash, cs, start, n, i, p)
    decreases cs
  {
    hide Says, LineProblems, Expect;
    if cs != [] {
      LineSays(read, hash, cs[0], start, n, p);
      assert LineReported(read, hash, cs, start, n, 0, p) <==> Says(read, hash, cs[0], start, n, p);
      var rest, due, next := cs[1..], Expect(read, cs[0], start), n + 1;
      ReportedFrom(read, hash, rest, due, next, p);
      if i: nat :| LineReported(read, hash, rest, due, next, i, p) {
        ReportedNext(read, hash, cs, start, n, i, p);
      }
      if i: nat :| LineReported(read, hash, cs, start, n, i, p) && i > 0 {
        ReportedNext(read, hash, cs, start, n, i - 1, p);
      }
    }
  }

  /** A problem is reported of a file exactly when some nonblank line has it: a duplicate key, no JSON where no kill can
      have torn it, no integrity block, a hash that is not its own material's, an index that does not follow the last record
      before it, or a link that is not that record's hash. Where no record stands before, nothing is expected. */
  lemma ProblemsExactly(read: Reader, gaps: Gaps, hash: Hash, raw: string, p: Problem)
    ensures p in Verified(read, gaps, hash, raw).problems <==> exists i: nat :: LineReported(read, hash, Chunks(raw), None, 1, i, p)
  {
    hide LineReported, Chunks, Problems;
    ReportedFrom(read, hash, Chunks(raw), None, 1, p);
  }

  /** A note is made of a file exactly when some nonblank line calls for it: a last one without terminator that is no JSON, or
      a record that declares a gap. */
  lemma {:induction false} NotesFrom(read: Reader, gaps: Gaps, cs: seq<Chunk>, n: nat, x: Note)
    ensures x in Notes(read, gaps, cs, n)
       <==> exists i: nat :: i < |cs| && match x
              case TornTail(m) => m == n + i && cs[i].torn && read(cs[i].text) == NotJson
              case GapDeclared(m, dropped) => m == n + i && read(cs[i].text).Record? && gaps(read(cs[i].text).event.payload) == Some(dropped)
    decreases cs
  {
    if cs != [] {
      NotesFrom(read, gaps, cs[1..], n + 1, x);
      assert forall i: nat :: i < |cs| - 1 ==> cs[1..][i] == cs[i + 1];
      assert forall i: nat :: 0 < i < |cs| ==> cs[i] == cs[1..][i - 1];
    }
  }
}
