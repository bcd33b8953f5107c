/** The Go verifier's chain walk and live-tail check (verifier/chain.go, verifier/livetail.go) beside the
    TypeScript ones. */
module IndependentVerifier {
  import opened Wrappers
  import opened Text
  import opened Chain
  import opened RecordFiles
  import opened Rotation
  import opened Anchor
  import opened HonestWorld
  import opened HonestSteps
  import opened HonestVerdict

  // ----- the chain walk

  /** The last good record of the file so far: its index and its hash. */
  datatype Prior = Prior(index: int, hash: string)

  function LinkProblems(e: Event, prior: Option<Prior>, n: nat): seq<Problem> {
    match prior
    case None =>
      if e.integrity.previousHash.None? && e.integrity.chainIndex != 0 then [LinkBreakAt(n)] else []
    case Some(p) =>
      (if e.integrity.chainIndex != p.index + 1 then [IndexGapAt(n)] else [])
      + (if e.integrity.previousHash != Some(p.hash) then [LinkBreakAt(n)] else [])
  }

  function StepProblems(read: Reader, hash: Hash, c: Chunk, prior: Option<Prior>, n: nat): seq<Problem> {
    match read(c.text)
    case Record(e) => LinkProblems(e, prior, n) + (if hash(Material(e)) != e.integrity.hash then [HashMismatchAt(n)] else [])
    case Duplicate => [DupKeyAt(n)]
    case NotJson => if c.torn then [] else [NotJsonAt(n)]
    case NoIntegrity => [NoIntegrityAt(n)]
  }

  function NextPrior(read: Reader, c: Chunk, prior: Option<Prior>): Option<Prior> {
    match read(c.text) case Record(e) => Some(Prior(e.integrity.chainIndex, e.integrity.hash)) case _ => prior
  }

  function WalkProblems(read: Reader, hash: Hash, chunks: seq<Chunk>, prior: Option<Prior>, n: nat): seq<Problem> {
    if chunks == [] then []
    else StepProblems(read, hash, chunks[0], prior, n) + WalkProblems(read, hash, chunks[1..], NextPrior(read, chunks[0], prior), n + 1)
  }

  /** verifyChainFile of verifier/chain.go: the fatal problems, before the cap on how many are shown. */
  method WalkFile(read: Reader, hash: Hash, chunks: seq<Chunk>) returns (problems: seq<Problem>)
    ensures problems == WalkProblems(read, hash, chunks, None, 1)
  {
    hide HashMaterial, StepProblems, NextPrior;
    problems := [];
    var have, prevIndex, prevHash := false, 0, "";
    assert chunks[0..] == chunks;
    for i := 0 to |chunks|
      invariant WalkProblems(read, hash, chunks, None, 1)
             == problems + WalkProblems(read, hash, chunks[i..], if have then Some(Prior(prevIndex, prevHash)) else None, i + 1)
    {
      assert chunks[i..][1..] == chunks[i + 1..] && chunks[i..][0] == chunks[i];
      var found: seq<Problem>;
      found, have, prevIndex, prevHash := WalkLine(read, hash, chunks[i], have, prevIndex, prevHash, i + 1);
      problems := problems + found;
    }
  }

  /** One turn of the walk. */
  method WalkLine(read: Reader, hash: Hash, c: Chunk, had: bool, lastIndex: int, lastHash: string, n: nat)
    returns (problems: seq<Problem>, have: bool, prevIndex: int, prevHash: string)
    ensures var prior := if had then Some(Prior(lastIndex, lastHash)) else None;
            && problems == StepProblems(read, hash, c, prior, n)
            && (if have then Some(Prior(prevIndex, prevHash)) else None) == NextPrior(read, c, prior)
  {
    hide HashMaterial;
    problems, have, prevIndex, prevHash := [], had, lastIndex, lastHash;
    match read(c.text) {
      case Duplicate => problems := [DupKeyAt(n)];
      case NotJson => if !c.torn { problems := [NotJsonAt(n)]; }
      case NoIntegrity => problems := [NoIntegrityAt(n)];
      case Record(e) =>
        if !have {
          if e.integrity.previousHash.None? && e.integrity.chainIndex != 0 { problems := problems + [LinkBreakAt(n)]; }
        } else {
          if e.integrity.chainIndex != prevIndex + 1 { problems := problems + [IndexGapAt(n)]; }
          if e.integrity.previousHash != Some(prevHash) { problems := problems + [LinkBreakAt(n)]; }
        }
        if hash(Material(e)) != e.integrity.hash { problems := problems + [HashMismatchAt(n)]; }
        have, prevIndex, prevHash := true, e.integrity.chainIndex, e.integrity.hash;
    }
  }

  function Expected(prior: Option<Prior>): Option<ChainState> {
    match prior case None => None case Some(p) => Some(ChainState(p.index + 1, Some(p.hash)))
  }

  /** Past the first record the two walks find the same problems, line by line. */
  lemma {:induction false} WalksAgreeAfterFirst(read: Reader, hash: Hash, chunks: seq<Chunk>, prior: Option<Prior>, n: nat)
    requires prior.Some?
    ensures WalkProblems(read, hash, chunks, prior, n) == Problems(read, hash, chunks, Expected(prior), n)
    decreases chunks
  {
    hide HashMaterial;
    if chunks != [] {
      match read(chunks[0].text)
      case Record(e) => WalksAgreeAfterFirst(read, hash, chunks[1..], Some(Prior(e.integrity.chainIndex, e.integrity.hash)), n + 1);
      case _ => WalksAgreeAfterFirst(read, hash, chunks[1..], prior, n + 1);
    }
  }

  /** A file may begin mid-sequence only with a link to what came before. */
  predicate BeginsProperly(es: seq<Event>) {
    es != [] ==> es[0].integrity.previousHash.Some? || es[0].integrity.chainIndex == 0
  }

  /** The two walks report the same problems exactly when the file begins properly: a null link at a nonzero
      index is the one thing the Go walk refuses and the TypeScript walk accepts. */
  lemma {:induction false} WalksAgreeExactly(read: Reader, hash: Hash, chunks: seq<Chunk>, n: nat)
    ensures WalkProblems(read, hash, chunks, None, n) == Problems(read, hash, chunks, None, n) <==> BeginsProperly(Records(read, chunks))
    ensures |WalkProblems(read, hash, chunks, None, n)|
         == |Problems(read, hash, chunks, None, n)| + (if BeginsProperly(Records(read, chunks)) then 0 else 1)
    decreases chunks
  {
    hide HashMaterial;
    if chunks != [] {
      var t := Problems(read, hash, chunks[1..], None, n + 1);
      var g := WalkProblems(read, hash, chunks[1..], None, n + 1);
      if read(chunks[0].text).Record? {
        FirstRecord(read, hash, chunks, n);
      } else {
        WalksAgreeExactly(read, hash, chunks[1..], n + 1);
        SameHeads(LineProblems(read, hash, chunks[0], None, n), t, g);
      }
    }
  }

  /** The first record's problems, on either side, in front of the same rest. */
  lemma FirstRecord(read: Reader, hash: Hash, chunks: seq<Chunk>, n: nat)
    requires chunks != [] && read(chunks[0].text).Record?
    ensures WalkProblems(read, hash, chunks, None, n) == Problems(read, hash, chunks, None, n) <==> BeginsProperly(Records(read, chunks))
    ensures |WalkProblems(read, hash, chunks, None, n)|
         == |Problems(read, hash, chunks, None, n)| + (if BeginsProperly(Records(read, chunks)) then 0 else 1)
  {
    hide Problems, WalkProblems, LinkProblems, Records;
    var e := read(chunks[0].text).event;
    var rest := Problems(read, hash, chunks[1..], Some(After(e)), n + 1);
    var mismatch := if hash(Material(e)) != e.integrity.hash then [HashMismatchAt(n)] else [];
    FirstTypeScript(read, hash, chunks, n);
    FirstGo(read, hash, chunks, n);
    RecordsHead(read, chunks);
    FirstLink(Records(read, chunks), n);
    assert LinkProblems(e, None, n) == [] ==> LinkProblems(e, None, n) + mismatch + rest == mismatch + rest;
  }

  lemma FirstTypeScript(read: Reader, hash: Hash, chunks: seq<Chunk>, n: nat)
    requires chunks != [] && read(chunks[0].text).Record?
    ensures var e := read(chunks[0].text).event;
            Problems(read, hash, chunks, None, n)
            == (if hash(Material(e)) != e.integrity.hash then [HashMismatchAt(n)] else [])
               + Problems(read, hash, chunks[1..], Some(After(e)), n + 1)
  {
    hide HashMaterial;
    var e := read(chunks[0].text).event;
    assert LineProblems(read, hash, chunks[0], None, n) == if hash(Material(e)) != e.integrity.hash then [HashMismatchAt(n)] else [];
  }

  lemma FirstGo(read: Reader, hash: Hash, chunks: seq<Chunk>, n: nat)
    requires chunks != [] && read(chunks[0].text).Record?
    ensures var e := read(chunks[0].text).event;
            WalkProblems(read, hash, chunks, None, n)
            == LinkProblems(e, None, n) + (if hash(Material(e)) != e.integrity.hash then [HashMismatchAt(n)] else [])
               + Problems(read, hash, chunks[1..], Some(After(e)), n + 1)
  {
    hide HashMaterial, LinkProblems;
    var e := read(chunks[0].text).event;
    WalksAgreeAfterFirst(read, hash, chunks[1..], Some(Prior(e.integrity.chainIndex, e.integrity.hash)), n + 1);
  }

  lemma FirstLink(es: seq<Event>, n: nat)
    requires es != []
    ensures |LinkProblems(es[0], None, n)| == if BeginsProperly(es) then 0 else 1
  {
  }

  lemma RecordsHead(read: Reader, chunks: seq<Chunk>)
    requires chunks != [] && read(chunks[0].text).Record?
    ensures Records(read, chunks) != [] && Records(read, chunks)[0] == read(chunks[0].text).event
  {
  }

  lemma SameHeads(p: seq<Problem>, a: seq<Problem>, b: seq<Problem>)
    ensures p + a == p + b <==> a == b
  {
    if p + a == p + b { assert (p + a)[|p|..] == a && (p + b)[|p|..] == b; }
  }

  // ----- the live-tail check

  /** Text that needs no escaping between quotes, as hex digests do not. */
  predicate Plain(s: string) { forall i | 0 <= i < |s| :: s[i] as int >= 0x20 && s[i] != '"' && s[i] != '\\' }

  lemma {:induction false} PlainBody(s: string)
    requires Plain(s)
    ensures Body(s) == s
  {
    if s != "" { PlainBody(s[1..]); }
  }

  /** The hashed text of compositeHash: heads and hashes stand between bare quotes. */
  function CompositeBytes(headField: string, segments: nat, tail: Option<LiveTail>): string {
    "{\"manifestHead\":" + headField + ",\"segments\":" + Integer(segments) + ",\"liveTail\":" + TailBytes(tail) + "}"
  }

  function HeadField(head: Option<string>): string { match head case None => "null" case Some(h) => "\"" + h + "\"" }

  /** On plain hashes the two programs hash one text. */
  lemma SameComposite(head: Option<string>, segments: nat, tail: Option<LiveTail>)
    requires (head.Some? ==> Plain(head.value)) && (tail.Some? ==> Plain(tail.value.finalHash))
    ensures CompositeBytes(HeadField(head), segments, tail) == CompositeText(head, segments, tail)
  {
    hide Integer, TailText, QuoteOrNull, Plain;
    SameHeadField(head);
    SameTailText(tail);
    CompositePieces(QuoteOrNull(head), Integer(segments), TailText(tail));
  }

  lemma SameHeadField(head: Option<string>)
    requires head.Some? ==> Plain(head.value)
    ensures HeadField(head) == QuoteOrNull(head)
  {
    hide Body, Plain;
    if head.Some? { PlainBody(head.value); }
  }

  function TailBytes(tail: Option<LiveTail>): string {
    match tail case None => "null" case Some(t) => "{\"finalHash\":\"" + t.finalHash + "\",\"count\":" + Integer(t.count) + "}"
  }

  lemma SameTailText(tail: Option<LiveTail>)
    requires tail.Some? ==> Plain(tail.value.finalHash)
    ensures TailBytes(tail) == TailText(tail)
  {
    hide Integer, Body, Plain;
    if tail.Some? {
      var t := tail.value;
      PlainBody(t.finalHash);
      TailPieces(Quote(t.finalHash), Integer(t.count));
      QuotedTail(t.finalHash, Integer(t.count));
    }
  }

  lemma QuotedTail(h: string, c: string)
    ensures "{\"finalHash\":\"" + h + "\",\"count\":" + c + "}" == "{\"finalHash\":" + ("\"" + h + "\"") + ",\"count\":" + c + "}"
  {
    assert "{\"finalHash\":" + "\"" == "{\"finalHash\":\"" && "\"" + ",\"count\":" == "\",\"count\":";
  }

  lemma TailPieces(q: string, c: string)
    ensures "{\"finalHash\":" + (q + (",\"count\":" + (c + ['}']))) == "{\"finalHash\":" + q + ",\"count\":" + c + "}"
  {
  }

  lemma CompositePieces(h: string, i: string, t: string)
    ensures "{\"manifestHead\":" + (h + (",\"segments\":" + (i + [','] + ("\"liveTail\":" + (t + "}")))))
         == "{\"manifestHead\":" + h + ",\"segments\":" + i + ",\"liveTail\":" + t + "}"
  {
    assert [','] + "\"liveTail\":" == ",\"liveTail\":";
  }

  /** What the check searches: every prefix of every file beside the live one, and every entry's shape. */
  datatype Sources = Sources(heads: seq<string>, files: seq<seq<string>>, entries: seq<LiveTail>)

  predicate InFile(hash: Hash, headField: string, segments: nat, want: string, hashes: seq<string>) {
    exists c :: 0 <= c < |hashes| && hash(CompositeBytes(headField, segments, Some(LiveTail(hashes[c], c + 1)))) == want
  }

  predicate Reproduced(hash: Hash, s: Sources, cp: Checkpoint) {
    cp.chainIndex <= |s.heads| &&
    var field := HeadField(if cp.chainIndex == 0 then None else Some(s.heads[cp.chainIndex - 1]));
    || hash(CompositeBytes(field, cp.chainIndex, None)) == cp.hash
    || (exists f :: 0 <= f < |s.files| && InFile(hash, field, cp.chainIndex, cp.hash, s.files[f]))
    || (exists e :: 0 <= e < |s.entries| && hash(CompositeBytes(field, cp.chainIndex, Some(s.entries[e]))) == cp.hash)
  }

  /** Every prefix of one file. */
  method CheckFile(hash: Hash, field: string, n: nat, want: string, hashes: seq<string>) returns (found: bool)
    ensures found == InFile(hash, field, n, want, hashes)
  {
    hide CompositeBytes;
    for c := 0 to |hashes|
      invariant forall b | 0 <= b < c :: hash(CompositeBytes(field, n, Some(LiveTail(hashes[b], b + 1)))) != want
    {
      if hash(CompositeBytes(field, n, Some(LiveTail(hashes[c], c + 1)))) == want { return true; }
    }
    return false;
  }

  /** check. */
  method Check(hash: Hash, s: Sources, cp: Checkpoint) returns (ok: bool)
    ensures ok == Reproduced(hash, s, cp)
  {
    hide CompositeBytes, InFile, HeadField;
    var n := cp.chainIndex;
    if n > |s.heads| { return false; }
    var field := HeadField(if n == 0 then None else Some(s.heads[n - 1]));
    if hash(CompositeBytes(field, n, None)) == cp.hash { return true; }
    for f := 0 to |s.files|
      invariant forall g | 0 <= g < f :: !InFile(hash, field, n, cp.hash, s.files[g])
    {
      var found := CheckFile(hash, field, n, cp.hash, s.files[f]);
      if found { return true; }
    }
    for e := 0 to |s.entries|
      invariant forall g | 0 <= g < e :: hash(CompositeBytes(field, n, Some(s.entries[g]))) != cp.hash
    {
      if hash(CompositeBytes(field, n, Some(s.entries[e]))) == cp.hash { return true; }
    }
    return false;
  }

  function HashesOf(es: seq<Event>): seq<string> { seq(|es|, i requires 0 <= i < |es| => es[i].integrity.hash) }

  function FileHashes(k: Kit, files: Files, at: string): seq<string> {
    if at in files then HashesOf(Events(k.read, files[at])) else []
  }

  function SourcesOf(k: Kit, disk: Disk): Sources {
    var found := Discovered(k, disk.files, disk.listing);
    Sources(Finals(disk.manifest),
            [FileHashes(k, disk.files, LiveAt(k))]
            + seq(|found|, i requires 0 <= i < |found| => FileHashes(k, disk.files, Resolve(k.layout, found[i]))),
            seq(|disk.manifest|, i requires 0 <= i < |disk.manifest| => LiveTail(disk.manifest[i].finalHash, disk.manifest[i].count)))
  }

  /** Everything written is a digest of the hash, and digests are plain. */
  ghost predicate PlainHash(hash: Hash) { forall x :: Plain(hash(x)) }

  lemma PieceHashes<P>(env: Env<P>, piece: Piece<P>, c: nat)
    requires PlainHash(env.hash) && c < |EventsOf(env, piece)|
    ensures Plain(EventsOf(env, piece)[c].integrity.hash)
  {
    hide Plain, HashMaterial;
    WrittenChained(env.f, env.hash, piece.ps, piece.start);
    ChainedAt(env.hash, EventsOf(env, piece), Some(piece.start), c);
    var text := Material(EventsOf(env, piece)[c]);
    assert Plain(env.hash(text));
  }

  /** The sources hold the file of every piece. */
  lemma PieceSourced<P(!new)>(env: Env<P>, w: World<P>, i: nat) returns (f: nat)
    requires Faithful(env.f) && FilesMatch(env, w) && HasPiece(w, i)
    ensures f < |SourcesOf(KitOf(env), w.disk).files|
    ensures SourcesOf(KitOf(env), w.disk).files[f] == HashesOf(EventsOf(env, PieceAt(w, i)))
  {
    hide Events, EventsOf, LiveAt, ClosedAt, ClosedHere, LiveHere;
    PieceOnDisk(env, w, i);
    var k := KitOf(env);
    var found := Discovered(k, w.disk.files, w.disk.listing);
    if i < |w.closed| {
      f := i + 1;
      assert found[i] == ClosedPath(env.layout, w.closed[i].name);
      ResolveClosed(env.layout, w.closed[i].name);
    } else {
      f := 0;
    }
  }

  /** On an honest disk the Go check passes every checkpoint too. */
  lemma HonestChecks<P(!new)>(env: Env<P>, w: World<P>, cp: Checkpoint, com: Commitment)
    requires Faithful(env.f) && PathsAgree(env.layout) && PlainHash(env.hash)
    requires FilesMatch(env, w) && HistoryMatches(env, w) && ManifestMatches(env, w) && Committed(env, w, cp, com)
    ensures Reproduced(env.hash, SourcesOf(KitOf(env), w.disk), cp)
  {
    hide PathsAgree, FilesMatch, HistoryMatches, Manifested, EventsOf, CompositeBytes, CompositeText, PlainHash, HasPiece, PieceAt, Plain,
      Discovered, FileHashes;
    var k, n := KitOf(env), com.segments;
    var s, head := SourcesOf(k, w.disk), HeadAt(w.disk, n);
    HeadPlain(env, w, n);
    assert n > 0 ==> head == Some(s.heads[n - 1]);
    if com.count == 0 {
      SameComposite(head, n, None);
    } else {
      var piece := PieceAt(w, com.piece);
      var f := PieceSourced(env, w, com.piece);
      PieceHashes(env, piece, com.count - 1);
      var tail := TailFor(env, piece, com.count);
      SameComposite(head, n, Some(tail));
      assert s.files[f][com.count - 1] == tail.finalHash;
      assert InFile(env.hash, HeadField(head), n, cp.hash, s.files[f]);
    }
  }

  lemma HeadPlain<P(!new)>(env: Env<P>, w: World<P>, n: nat)
    requires Faithful(env.f) && PathsAgree(env.layout) && PlainHash(env.hash)
    requires FilesMatch(env, w) && HistoryMatches(env, w) && ManifestMatches(env, w) && n <= |w.disk.manifest|
    ensures HeadAt(w.disk, n).Some? ==> Plain(HeadAt(w.disk, n).value)
    ensures HeadAt(w.disk, n) == if n == 0 then None else Some(w.disk.manifest[n - 1].finalHash)
  {
    hide PathsAgree, Discovered, ClosedHere, LiveHere, EventsOf, PlainHash, Plain, ManifestProblems;
    if n > 0 {
      EntryShape(env, w, w.disk.manifest, n - 1);
      var c := w.closed[n - 1];
      assert InPlace(env, w.written, c);
      NotEmpty(env, w.disk.files, c);
      LastOfPiece(env, w.written, c, LastPlace(c));
      PieceHashes(env, c.piece, |c.piece.ps| - 1);
    }
  }

  lemma NotEmpty<P>(env: Env<P>, files: Files, c: Closed<P>)
    requires ClosedHere(env, files, c)
    ensures c.piece.ps != []
  {
    hide TextOf, ClosedAt, ClosedName;
  }

  lemma LastOfPiece<P(!new)>(env: Env<P>, written: seq<Event>, c: Closed<P>, at: nat)
    requires Faithful(env.f) && InPlace(env, written, c) && c.piece.ps != [] && at == LastPlace(c)
    ensures |EventsOf(env, c.piece)| == |c.piece.ps|
    ensures at < |written| && written[at] == EventsOf(env, c.piece)[|c.piece.ps| - 1]
  {
    hide EventsOf, Verified, Events, TextOf;
    PieceShape(env, c.piece);
    LastOfSlice(written, c.begin, |c.piece.ps|);
  }

  lemma LastOfSlice(written: seq<Event>, begin: nat, n: nat)
    requires n > 0 && begin + n <= |written|
    ensures written[begin..begin + n][n - 1] == written[begin + n - 1]
  {
  }

  /** After any honest run, every checkpoint ever signed passes the Go check as well. */
  lemma HonestRunsCheck<P(!new)>(env: Env<P>, ops: seq<Op<P>>, i: nat)
    requires Faithful(env.f) && PathsAgree(env.layout) && Signs(env.t) && PlainHash(env.hash)
    requires Fresh(env, Run(env, Boot<P>(), ops)) && i < |Run(env, Boot<P>(), ops).signed|
    ensures ChecksAt(env, Run(env, Boot<P>(), ops), i)
  {
    hide Run, PathsAgree, Signs, Fresh, NoRepeats, PlainHash, FilesMatch, HistoryMatches, ManifestMatches, ChainMatches, SignedMatch, Committed,
      Reproduced, WellRecorded;
    var w := Run(env, Boot<P>(), ops);
    RunHonest(env, ops);
    SignedAt(env, w, i);
    HonestChecks(env, w, CheckpointOf(w, i), w.signed[i]);
  }

  predicate ChecksAt<P>(env: Env<P>, w: World<P>, i: nat) {
    && i < |w.disk.anchors| && w.disk.anchors[i].Anchored? && w.disk.anchors[i].record.checkpoint.Some?
    && Reproduced(env.hash, SourcesOf(KitOf(env), w.disk), CheckpointOf(w, i))
  }
}
