/** Honest runs of the evidence directory: append, rotate to a fresh name, restart, anchor. Besides the disk
    and the writer's chain state, the world keeps the history of what was written and signed. */
module HonestWorld {
  import opened Wrappers
  import opened Text
  import opened Chain
  import opened Resume
  import opened RecordFiles
  import opened Rotation
  import opened Anchor

  datatype Env<!P> = Env(f: Format<P>, hash: Hash, layout: Layout, t: Trust)

  function KitOf<P>(env: Env<P>): Kit { Kit(env.f.read, env.f.gaps, env.hash, env.layout) }

  /** What one record file holds: the state its first record was chained from, and its payloads. */
  datatype Piece<+P> = Piece(start: ChainState, ps: seq<P>)

  /** A closed file, and where its records begin in the order of writing. */
  datatype Closed<+P> = Closed(name: string, piece: Piece<P>, begin: nat)

  /** What a checkpoint committed to: the files sealed by then, the file that was live (by its place in the
      order of closing), how many records it held, and the index of the last record on disk. */
  datatype Commitment = Commitment(segments: nat, piece: nat, count: nat, reach: int)

  datatype World<+P> = World(disk: Disk, chain: ChainState, closed: seq<Closed<P>>, live: Option<Piece<P>>,
                             written: seq<Event>, signed: seq<Commitment>)

  function Boot<P>(): World<P> { World(Disk(map[], [], [], [], false, map[]), FRESH, [], None, [], []) }

  datatype Op<+P> = Append(payload: P) | Rotate(name: string, create: bool) | Restart(chunk: nat)
                  | Anchor(now: string, submission: Submission)

  function ClosedAt(l: Layout, name: string): string { Resolve(l, ClosedPath(l, name)) }

  function EventsOf<P>(env: Env<P>, piece: Piece<P>): seq<Event> { EventsFrom(env.f, env.hash, piece.ps, piece.start) }

  function TextOf<P>(env: Env<P>, piece: Piece<P>): string { FileFrom(env.f, env.hash, piece.ps, piece.start) }

  function LiveCount<P>(live: Option<Piece<P>>): nat { match live case None => 0 case Some(x) => |x.ps| }

  // ----- the steps

  /** The file sink creates the live file with the first record. */
  function AppendStep<P>(env: Env<P>, w: World<P>, p: P): World<P> {
    var at := LiveAt(KitOf(env));
    var e := ChainEvent(env.hash, env.f.canon(p), w.chain);
    var before := if at in w.disk.files then w.disk.files[at] else "";
    var grown := if LiveCount(w.live) > 0 then Piece(w.live.value.start, w.live.value.ps + [p]) else Piece(w.chain, [p]);
    w.(disk := w.disk.(files := w.disk.files[at := before + env.f.render(p, e.integrity) + [LF]]),
       chain := After(e), live := Some(grown), written := w.written + [e])
  }

  predicate CanRotate<P>(env: Env<P>, w: World<P>, name: string) {
    && LiveAt(KitOf(env)) in w.disk.files
    && ClosedName(env.layout.base, name) && name !in w.disk.listing
    && ClosedAt(env.layout, name) !in w.disk.files
  }

  function RotatedFiles<P>(env: Env<P>, files: Files, name: string, create: bool): Files
    requires LiveAt(KitOf(env)) in files
  {
    var at := LiveAt(KitOf(env));
    var moved := (files - {at})[ClosedAt(env.layout, name) := files[at]];
    if create then moved[at := ""] else moved
  }

  /** The live file is renamed to a name never used before; a new one may be created at once. */
  function RotateStep<P>(env: Env<P>, w: World<P>, name: string, create: bool): World<P> {
    if !CanRotate(env, w, name) then w
    else
      var closed := if LiveCount(w.live) > 0
                    then w.closed + [Closed(name, w.live.value, Before(w.written, w.live))] else w.closed;
      w.(disk := w.disk.(files := RotatedFiles(env, w.disk.files, name, create), listing := w.disk.listing + [name]),
         closed := closed, live := if create then Some(Piece(FRESH, [])) else None)
  }

  /** How many records were written before those of the live file. */
  function Before<P>(written: seq<Event>, live: Option<Piece<P>>): nat {
    if LiveCount(live) <= |written| then |written| - LiveCount(live) else 0
  }

  /** A restarted writer resumes from the live file, or starts over without one. */
  function RestartStep<P>(env: Env<P>, w: World<P>, chunk: nat): World<P>
    requires chunk > 0
  {
    var at := LiveAt(KitOf(env));
    if at !in w.disk.files || w.disk.files[at] == "" then w.(chain := FRESH)
    else
      var raw := w.disk.files[at];
      w.(chain := FromCandidates(env.f.resume, Resume.Candidates(raw, Window(raw, |raw|, chunk))).state)
  }

  function AnchorStep<P>(env: Env<P>, w: World<P>, now: string, s: Submission): World<P> {
    var disk := AnchorPass(KitOf(env), env.t, w.disk, now, s);
    var com := Commitment(|disk.manifest|, |w.closed|, LiveCount(w.live),
                          if w.written == [] then 0 else w.written[|w.written| - 1].integrity.chainIndex);
    w.(disk := disk, signed := if |disk.anchors| > |w.disk.anchors| then w.signed + [com] else w.signed)
  }

  function Step<P>(env: Env<P>, w: World<P>, op: Op<P>): World<P> {
    match op
    case Append(p) => AppendStep(env, w, p)
    case Rotate(name, create) => RotateStep(env, w, name, create)
    case Restart(chunk) => RestartStep(env, w, chunk + 1)
    case Anchor(now, s) => AnchorStep(env, w, now, s)
  }

  function Run<P>(env: Env<P>, w: World<P>, ops: seq<Op<P>>): World<P>
    decreases |ops|
  {
    if ops == [] then w else Run(env, Step(env, w, ops[0]), ops[1..])
  }

  // ----- what the theorems ask of the environment

  /** A process has a working directory, and a file a name. */
  predicate Proper(l: Layout) { l.cwd != "" && l.base != "" && !IsAbsolute(l.base) }

  /** Entries find their files again: see SegmentPathFindsFile for when. */
  predicate PathsAgree(l: Layout) { Proper(l) && (IsAbsolute(l.dir) || ManifestHome(l) == l.cwd) }

  /** A signature made with the key checks under it. */
  ghost predicate Signs(t: Trust) {
    forall n: nat, h: string, now: string {:trigger t.sign(n, h, now)} :: t.checks(Checkpoint(n, h, now, t.sign(n, h, now), t.publicKey))
  }

  /** No two records ever written carry the same hash. */
  predicate NoRepeats(written: seq<Event>) {
    forall i, j | 0 <= i < j < |written| :: written[i].integrity.hash != written[j].integrity.hash
  }

  // ----- what every honest step keeps

  function PathsOf<P>(l: Layout, closed: seq<Closed<P>>): seq<string> {
    seq(|closed|, i requires 0 <= i < |closed| => ClosedPath(l, closed[i].name))
  }

  predicate ClosedHere<P>(env: Env<P>, files: Files, c: Closed<P>) {
    && c.piece.ps != [] && ClosedName(env.layout.base, c.name)
    && ClosedAt(env.layout, c.name) in files && files[ClosedAt(env.layout, c.name)] == TextOf(env, c.piece)
  }

  predicate LiveHere<P>(env: Env<P>, files: Files, live: Option<Piece<P>>) {
    var at := LiveAt(KitOf(env));
    (live.Some? <==> at in files) && (live.Some? ==> files[at] == TextOf(env, live.value))
  }

  predicate FilesMatch<P>(env: Env<P>, w: World<P>) {
    && LiveHere(env, w.disk.files, w.live)
    && (forall i | 0 <= i < |w.closed| :: ClosedHere(env, w.disk.files, w.closed[i]))
    && (forall i, j | 0 <= i < j < |w.closed| :: w.closed[i].name != w.closed[j].name)
    && Discovered(KitOf(env), w.disk.files, w.disk.listing) == PathsOf(env.layout, w.closed)
    && (forall i | 0 <= i < |w.closed| :: w.closed[i].name in w.disk.listing)
  }

  predicate ChainMatches<P>(env: Env<P>, w: World<P>) {
    LiveCount(w.live) > 0 ==> w.chain == StateFrom(env.f, env.hash, w.live.value.ps, w.live.value.start)
  }

  /** The closed files' records, then the live file's, are everything written, in order. */
  predicate HistoryMatches<P>(env: Env<P>, w: World<P>) {
    && LiveCount(w.live) <= |w.written|
    && (w.live.Some? ==> w.written[Before(w.written, w.live)..] == EventsOf(env, w.live.value))
    && (forall i | 0 <= i < |w.closed| :: InPlace(env, w.written, w.closed[i]))
    && (forall i, j | 0 <= i < j < |w.closed| :: w.closed[i].begin + |w.closed[i].piece.ps| <= w.closed[j].begin)
    && (forall i | 0 <= i < |w.closed| :: w.closed[i].begin + |w.closed[i].piece.ps| <= Before(w.written, w.live))
    && Before(w.written, w.live) == (if w.closed == [] then 0 else w.closed[|w.closed| - 1].begin + |w.closed[|w.closed| - 1].piece.ps|)
  }

  predicate InPlace<P>(env: Env<P>, written: seq<Event>, c: Closed<P>) {
    c.begin + |c.piece.ps| <= |written| && written[c.begin..c.begin + |c.piece.ps|] == EventsOf(env, c.piece)
  }

  /** The manifest holds the first closed files, in order, and verifies. */
  predicate Manifested<P>(env: Env<P>, files: Files, closed: seq<Closed<P>>, entries: seq<Entry>) {
    && |entries| <= |closed|
    && ManifestProblems(KitOf(env), files, entries) == []
    && (forall i | 0 <= i < |entries| :: entries[i].path == ClosedPath(env.layout, closed[i].name))
  }

  predicate ManifestMatches<P>(env: Env<P>, w: World<P>) { Manifested(env, w.disk.files, w.closed, w.disk.manifest) }

  predicate HasPiece<P>(w: World<P>, i: nat) { i < |w.closed| || (i == |w.closed| && w.live.Some?) }

  function PieceAt<P>(w: World<P>, i: nat): Piece<P>
    requires HasPiece(w, i)
  {
    if i < |w.closed| then w.closed[i].piece else w.live.value
  }

  /** The live tail a checkpoint over the first `count` records of a piece commits to. */
  function TailFor<P>(env: Env<P>, piece: Piece<P>, count: nat): LiveTail {
    var es := EventsOf(env, piece);
    LiveTail(if 0 < count <= |es| then es[count - 1].integrity.hash else "", count)
  }

  /** A checkpoint whose commitment is still readable off the pieces. */
  predicate Committed<P>(env: Env<P>, w: World<P>, cp: Checkpoint, c: Commitment) {
    && cp.chainIndex == c.segments <= |w.disk.manifest|
    && if c.count == 0 then
         c.segments > 0 && c.reach == w.disk.manifest[c.segments - 1].lastIndex
         && cp.hash == Composite(env.hash, HeadAt(w.disk, c.segments), c.segments, None)
       else
         && c.segments <= c.piece && HasPiece(w, c.piece) && c.count <= |PieceAt(w, c.piece).ps|
         && cp.hash == Composite(env.hash, HeadAt(w.disk, c.segments), c.segments, Some(TailFor(env, PieceAt(w, c.piece), c.count)))
         && Reached(EventsOf(env, PieceAt(w, c.piece)), c)
  }

  predicate Reached(es: seq<Event>, c: Commitment) { 0 < c.count <= |es| && c.reach == es[c.count - 1].integrity.chainIndex }

  /** A record the pass itself wrote: signed, digested, and with its proof unless it says it failed. */
  predicate WellRecorded<P>(env: Env<P>, proofs: map<string, string>, line: AnchorLine) {
    && line.Anchored? && line.record.checkpoint.Some?
    && var r := line.record;
       && Vouched(env.t, r.checkpoint.value)
       && r.digest == env.hash(CheckpointText(r.checkpoint.value))
       && r.status == Pending
       && (!r.failed ==> r.proofPath == Some(ProofName(r.digest)) && ProofName(r.digest) in proofs
                         && Usable(env.t, r.digest, Proof(proofs[ProofName(r.digest)])))
  }

  predicate SignedMatch<P>(env: Env<P>, w: World<P>) {
    && |w.signed| == |w.disk.anchors|
    && (w.disk.anchors != [] ==> w.disk.hasKey)
    && (forall i | 0 <= i < |w.signed| :: WellRecorded(env, w.disk.proofs, w.disk.anchors[i]))
    && (forall i | 0 <= i < |w.signed| :: Committed(env, w, w.disk.anchors[i].record.checkpoint.value, w.signed[i]))
  }

  predicate Honest<P>(env: Env<P>, w: World<P>) {
    FilesMatch(env, w) && ChainMatches(env, w) && HistoryMatches(env, w) && ManifestMatches(env, w) && SignedMatch(env, w)
  }
}
