/** How far an honest checkpoint reaches, at every later point of the run. */
module HonestReach {
  import opened Wrappers
  import opened Chain
  import opened Resume
  import opened RecordFiles
  import opened Rotation
  import opened Anchor
  import opened AnchorService
  import opened Intact
  import opened HonestWorld
  import opened HonestSteps
  import opened HonestRuns
  import opened HonestVerdict

  // ----- where a record is in the order of writing

  function PieceBegin<P>(w: World<P>, i: nat): nat
    requires HasPiece(w, i)
  {
    if i < |w.closed| then w.closed[i].begin else Before(w.written, w.live)
  }

  lemma PieceInWritten<P(!new)>(env: Env<P>, w: World<P>, i: nat, m: nat)
    requires Faithful(env.f) && FilesMatch(env, w) && HistoryMatches(env, w) && HasPiece(w, i) && m < |PieceAt(w, i).ps|
    ensures PieceBegin(w, i) + m < |w.written|
    ensures m < |EventsOf(env, PieceAt(w, i))| && w.written[PieceBegin(w, i) + m] == EventsOf(env, PieceAt(w, i))[m]
    ensures forall j | 0 <= j < i && j < |w.closed| :: LastPlace(w.closed[j]) < PieceBegin(w, i)
  {
    hide EventsOf, LiveHere, ClosedHere, Discovered, TextOf, Verified, Events;
    PieceShape(env, PieceAt(w, i));
    var b := PieceBegin(w, i);
    if i < |w.closed| {
      assert InPlace(env, w.written, w.closed[i]);
      assert w.written[b..b + |PieceAt(w, i).ps|][m] == w.written[b + m];
    } else {
      assert w.written[b..][m] == w.written[b + m];
    }
  }

  /** A record written at place `p` carries this hash and this index. */
  predicate WrittenAt(written: seq<Event>, p: nat, hash: string, index: int) {
    p < |written| && written[p].integrity.hash == hash && written[p].integrity.chainIndex == index
  }

  /** Every file a live tail can be in holds a piece. */
  lemma EligiblePiece<P>(env: Env<P>, w: World<P>, segments: nat, path: string) returns (i: nat)
    requires PathsAgree(env.layout) && FilesMatch(env, w) && ManifestMatches(env, w) && segments <= |w.disk.manifest|
    requires path in Eligible(KitOf(env), w.disk, segments) && path in w.disk.files
    ensures HasPiece(w, i) && PieceFile(env, w, i) == path
  {
    hide PathsAgree, LiveAt, ClosedAt, ClosedName, Discovered, ClosedPath, SegmentPath, ManifestProblems, TextOf, Resolve;
    var k, found := KitOf(env), Discovered(KitOf(env), w.disk.files, w.disk.listing);
    var closed, later := SegmentPaths(k, w.disk.manifest[..segments]), SegmentPaths(k, w.disk.manifest[segments..]);
    AddAllHolds([LiveAt(k)], StillOpen(k, found, closed) + later, path);
    if path == LiveAt(k) {
      i := |w.closed|;
    } else if path in later {
      var j :| 0 <= j < |later| && later[j] == path;
      i := segments + j;
      assert ClosedHere(env, w.disk.files, w.closed[i]);
      EntryFinds(env.layout, w.closed[i].name);
    } else {
      StillOpenFrom(k, found, closed, path);
      var p :| p in found && Resolve(k.layout, p) == path;
      i :| 0 <= i < |found| && found[i] == p;
      ResolveClosed(env.layout, w.closed[i].name);
    }
  }

  /** A candidate's reach is the index of the written record that ends its tail. */
  lemma CandidateWritten<P(!new)>(env: Env<P>, w: World<P>, segments: nat, c: Candidate) returns (p: nat)
    requires Faithful(env.f) && PathsAgree(env.layout) && FilesMatch(env, w) && HistoryMatches(env, w) && ManifestMatches(env, w)
    requires segments <= |w.disk.manifest| && c in Anchor.Candidates(KitOf(env), w.disk, segments)
    ensures WrittenAt(w.written, p, c.tail.finalHash, c.reach)
  {
    hide PathsAgree, FilesMatch, HistoryMatches, Eligible, Events, EventsOf, PieceAt, PieceFile, HasPiece, PieceBegin, FileOffers, Manifested;
    var k := KitOf(env);
    OfferAllHolds([], Offers(k, w.disk, segments), c);
    var entries := EntryOffers(w.disk.manifest[segments..]);
    if c in FileOffers(k, w.disk.files, Eligible(k, w.disk, segments)) {
      var path := FromFile(k, w.disk.files, Eligible(k, w.disk, segments), c);
      var i := EligiblePiece(env, w, segments, path);
      PieceOnDisk(env, w, i);
      PieceInWritten(env, w, i, c.tail.count - 1);
      p := PieceBegin(w, i) + c.tail.count - 1;
    } else {
      var j :| 0 <= j < |entries| && entries[j] == c;
      ManifestedSize(env, w, w.disk.manifest);
      assert w.disk.manifest[segments..][j] == w.disk.manifest[segments + j];
      EntryShape(env, w, w.disk.manifest, segments + j);
      p := LastPlace(w.closed[segments + j]);
    }
  }

  // ----- exactness

  /** Record indexes keep rising across rotations. */
  predicate Ascending(written: seq<Event>) {
    forall i, j | 0 <= i < j < |written| :: written[i].integrity.chainIndex < written[j].integrity.chainIndex
  }

  /** The candidate anchorReach finds for an honest checkpoint with a live tail. */
  lemma HonestMatch<P(!new)>(env: Env<P>, w: World<P>, cp: Checkpoint, com: Commitment, texts: set<string>) returns (c: Candidate)
    requires Faithful(env.f) && PathsAgree(env.layout) && FilesMatch(env, w) && ManifestMatches(env, w)
    requires Committed(env, w, cp, com) && com.count > 0 && Told(KitOf(env), w.disk, com.segments, texts)
    ensures Composite(env.hash, HeadAt(w.disk, com.segments), com.segments, None) != cp.hash
    ensures FirstMatch(env.hash, HeadAt(w.disk, com.segments), com.segments, cp.hash, Anchor.Candidates(KitOf(env), w.disk, com.segments)) == Some(c)
    ensures c in Anchor.Candidates(KitOf(env), w.disk, com.segments) && c.tail == TailFor(env, PieceAt(w, com.piece), com.count)
  {
    hide PathsAgree, FilesMatch, ManifestMatches, EventsOf, TailFor, CompositeText, Anchor.Candidates, Materials, HeadAt;
    var n, head, cs := com.segments, HeadAt(w.disk, com.segments), Anchor.Candidates(KitOf(env), w.disk, com.segments);
    var tail := TailFor(env, PieceAt(w, com.piece), com.count);
    TailOffered(env, w, n, com.piece, com.count);
    var offered :| offered in cs && offered.tail == tail;
    FirstMatchFinds(env.hash, head, n, cp.hash, cs);
    var found := FirstMatch(env.hash, head, n, cp.hash, cs);
    assert Composite(env.hash, head, n, Some(offered.tail)) == cp.hash;
    c := found.value;
    CompositeInjective(head, n, Some(tail), head, n, None);
    CompositeInjective(head, n, Some(tail), head, n, Some(c.tail));
  }

  lemma ReachExact<P(!new)>(env: Env<P>, w: World<P>, cp: Checkpoint, com: Commitment, texts: set<string>)
    requires Faithful(env.f) && PathsAgree(env.layout) && FilesMatch(env, w) && HistoryMatches(env, w) && ManifestMatches(env, w)
    requires NoRepeats(w.written) && Ascending(w.written)
    requires Committed(env, w, cp, com) && Told(KitOf(env), w.disk, com.segments, texts)
    ensures CoveredThrough(KitOf(env), w.disk, cp) == Some(com.reach)
  {
    hide PathsAgree, FilesMatch, HistoryMatches, EventsOf, Composite, Anchor.Candidates, HeadAt, Told, PieceBegin, Manifested, HasPiece, PieceAt;
    var n := com.segments;
    if com.count > 0 {
      var c := HonestMatch(env, w, cp, com, texts);
      var p := CandidateWritten(env, w, n, c);
      var q := PieceBegin(w, com.piece) + com.count - 1;
      PieceInWritten(env, w, com.piece, com.count - 1);
      assert p == q;
      assert c.reach == com.reach;
      if n > 0 {
        ManifestedSize(env, w, w.disk.manifest);
        EntryShape(env, w, w.disk.manifest, n - 1);
      }
    }
  }

  // ----- runs whose indexes continue

  /** Every restart finds records to resume from, or nothing was written yet. */
  predicate Continuing<P>(env: Env<P>, w: World<P>, ops: seq<Op<P>>)
    decreases ops
  {
    ops != [] ==>
      && (ops[0].Restart? ==> LiveCount(w.live) > 0 || w.written == [])
      && Continuing(env, Step(env, w, ops[0]), ops[1..])
  }

  predicate Counted<P>(w: World<P>) {
    w.chain.chainIndex == |w.written| && forall i | 0 <= i < |w.written| :: w.written[i].integrity.chainIndex == i
  }

  lemma StepCounts<P(!new)>(env: Env<P>, w: World<P>, op: Op<P>)
    requires Faithful(env.f) && Honest(env, w) && Counted(w) && (op.Restart? ==> LiveCount(w.live) > 0 || w.written == [])
    ensures Counted(Step(env, w, op))
  {
    hide FilesMatch, HistoryMatches, ChainMatches, ManifestMatches, SignedMatch, AnchorPass, LiveAt, HashMaterial, CanRotate, RotatedFiles,
      FromCandidates, Window, Honest;
    match op
    case Restart(chunk) =>
      HonestSteps.RestartKeeps(env, w, chunk + 1);
      RestartOnlyChain(env, w, chunk + 1);
      if LiveCount(w.live) == 0 { RestartEmpty(env, w, chunk + 1); }
    case _ =>
  }

  lemma RestartEmpty<P>(env: Env<P>, w: World<P>, chunk: nat)
    requires Honest(env, w) && LiveCount(w.live) == 0 && chunk > 0
    ensures RestartStep(env, w, chunk).chain == FRESH
  {
    hide HistoryMatches, ChainMatches, ManifestMatches, SignedMatch, LiveAt, FromCandidates, Window, Discovered, ClosedHere;
    LiveOf(env, w);
    if w.live.Some? { EmptyText(env, w.live.value); }
  }

  lemma {:induction false} RunCounts<P(!new)>(env: Env<P>, w: World<P>, ops: seq<Op<P>>)
    requires Faithful(env.f) && PathsAgree(env.layout) && Signs(env.t) && NoRepeats(Run(env, w, ops).written)
    requires Honest(env, w) && Counted(w) && Continuing(env, w, ops)
    ensures Counted(Run(env, w, ops))
    decreases ops
  {
    hide Honest, PathsAgree, Signs, Step, Counted;
    if ops != [] {
      WrittenGrows(env, w, ops);
      StepKeeps(env, w, ops[0]);
      StepCounts(env, w, ops[0]);
      RunCounts(env, Step(env, w, ops[0]), ops[1..]);
    }
  }

  lemma {:induction false} RunConcat<P>(env: Env<P>, w: World<P>, a: seq<Op<P>>, b: seq<Op<P>>)
    ensures Run(env, w, a + b) == Run(env, Run(env, w, a), b)
    decreases a
  {
    hide Step;
    if a == [] {
      assert a + b == b;
    } else {
      assert (a + b)[1..] == a[1..] + b && (a + b)[0] == a[0];
      RunConcat(env, Step(env, w, a[0]), a[1..], b);
    }
  }

  lemma {:induction false} SignedGrows<P>(env: Env<P>, w: World<P>, ops: seq<Op<P>>)
    ensures w.signed <= Run(env, w, ops).signed && w.written <= Run(env, w, ops).written
    decreases ops
  {
    hide Step;
    if ops != [] {
      StepGrows(env, w, ops[0]);
      SignedGrows(env, Step(env, w, ops[0]), ops[1..]);
    }
  }

  // ----- the main result

  /** Reach of the `i`-th checkpoint on the world's disk. */
  predicate ReachesThrough<P>(env: Env<P>, w: World<P>, i: nat, index: int) {
    && i < |w.disk.anchors| && w.disk.anchors[i].Anchored? && w.disk.anchors[i].record.checkpoint.Some?
    && CoveredThrough(KitOf(env), w.disk, CheckpointOf(w, i)) == Some(index)
  }

  ghost predicate TellsAll<P>(env: Env<P>, w: World<P>, texts: set<string>) {
    forall n: nat | n <= |w.disk.manifest| :: Told(KitOf(env), w.disk, n, texts)
  }

  lemma HonestReachExact<P(!new)>(env: Env<P>, w: World<P>, i: nat, texts: set<string>)
    requires Faithful(env.f) && PathsAgree(env.layout) && Honest(env, w) && NoRepeats(w.written) && Counted(w)
    requires TellsAll(env, w, texts) && i < |w.signed|
    ensures ReachesThrough(env, w, i, w.signed[i].reach)
  {
    hide PathsAgree, FilesMatch, HistoryMatches, ManifestMatches, ChainMatches, NoRepeats, CoveredThrough, Told, WellRecorded, SignedMatch;
    SignedAt(env, w, i);
    assert Ascending(w.written);
    CommittedSize(env, w, CheckpointOf(w, i), w.signed[i]);
    ReachExact(env, w, CheckpointOf(w, i), w.signed[i], texts);
  }

  lemma CommittedSize<P>(env: Env<P>, w: World<P>, cp: Checkpoint, com: Commitment)
    requires Committed(env, w, cp, com)
    ensures com.segments <= |w.disk.manifest|
  {
    hide EventsOf, Composite;
  }

  /** A checkpoint signed after `before` reaches exactly the last record then on disk, and still does after
      whatever honest steps follow. */
  lemma ReachNeverDecays<P(!new)>(env: Env<P>, before: seq<Op<P>>, now: string, s: Submission, after: seq<Op<P>>, texts: set<string>)
    requires Faithful(env.f) && PathsAgree(env.layout) && Signs(env.t)
    requires Fresh(env, Run(env, Boot<P>(), before + ([Anchor(now, s)] + after)))
    requires Continuing(env, Boot<P>(), before + ([Anchor(now, s)] + after))
    requires TellsAll(env, Run(env, Boot<P>(), before + ([Anchor(now, s)] + after)), texts)
    ensures var w := Run(env, Boot<P>(), before + ([Anchor(now, s)] + after));
            var u := Run(env, Boot<P>(), before);
            |AnchorStep(env, u, now, s).signed| > |u.signed| ==>
              u.written != [] && ReachesThrough(env, w, |u.signed|, u.written[|u.written| - 1].integrity.chainIndex)
  {
    hide Run, Honest, PathsAgree, Signs, Fresh, NoRepeats, TellsAll, Continuing, Counted, AnchorStep, ReachesThrough;
    var ops := before + ([Anchor(now, s)] + after);
    var w, u := Run(env, Boot<P>(), ops), Run(env, Boot<P>(), before);
    var v := AnchorStep(env, u, now, s);
    RunHonest(env, ops);
    BootHonest(env);
    BootCounted<P>();
    RunCounts(env, Boot<P>(), ops);
    RunConcat(env, Boot<P>(), before, [Anchor(now, s)] + after);
    OneStep(env, u, now, s, after);
    SignedGrows(env, v, after);
    if |v.signed| > |u.signed| {
      RecordedReach(env, u, now, s);
      HonestReachExact(env, w, |u.signed|, texts);
      PrefixHonest(env, before, ops);
      SignsSomething(env, u, now, s);
    }
  }

  lemma BootCounted<P>()
    ensures Counted(Boot<P>())
  {
  }

  lemma OneStep<P>(env: Env<P>, u: World<P>, now: string, s: Submission, after: seq<Op<P>>)
    ensures Run(env, u, [Anchor(now, s)] + after) == Run(env, AnchorStep(env, u, now, s), after)
  {
    hide AnchorStep;
    assert ([Anchor(now, s)] + after)[1..] == after;
  }

  lemma RecordedReach<P>(env: Env<P>, u: World<P>, now: string, s: Submission)
    ensures var v := AnchorStep(env, u, now, s);
            |v.signed| > |u.signed| ==>
              v.signed[|u.signed|].reach == (if u.written == [] then 0 else u.written[|u.written| - 1].integrity.chainIndex)
  {
    hide AnchorPass;
  }

  lemma PrefixHonest<P(!new)>(env: Env<P>, before: seq<Op<P>>, ops: seq<Op<P>>)
    requires Faithful(env.f) && PathsAgree(env.layout) && Signs(env.t) && before <= ops && NoRepeats(Run(env, Boot<P>(), ops).written)
    ensures Honest(env, Run(env, Boot<P>(), before)) && NoRepeats(Run(env, Boot<P>(), before).written)
  {
    hide Run, Honest, PathsAgree, Signs;
    BootHonest(env);
    assert ops == before + ops[|before|..];
    RunConcat(env, Boot<P>(), before, ops[|before|..]);
    SignedGrows(env, Run(env, Boot<P>(), before), ops[|before|..]);
    HonestRuns.RunKeeps(env, Boot<P>(), before);
  }

  /** A pass signs only when something was written. */
  lemma SignsSomething<P(!new)>(env: Env<P>, u: World<P>, now: string, s: Submission)
    requires Faithful(env.f) && PathsAgree(env.layout) && NoRepeats(u.written) && Honest(env, u)
    requires |AnchorStep(env, u, now, s).signed| > |u.signed|
    ensures u.written != []
  {
    hide FilesMatch, HistoryMatches, ManifestMatches, ChainMatches, SignedMatch, PathsAgree, NoRepeats, AnchorPass, NextCheckpoint, Recorded,
      SealedDisk, ShapeAt, LiveAt, Honest;
    AnchorCases(KitOf(env), env.t, u.disk, now, s);
    AnchorSeals(env, u, now);
    HonestParts(env, u);
    HonestParts(env, u.(disk := SealedDisk(KitOf(env), u.disk, now)));
    LiveCases(env, u);
    HistoryFrame(env, u, u.(disk := SealedDisk(KitOf(env), u.disk, now)));
    NewlyCommitted(env, u.(disk := SealedDisk(KitOf(env), u.disk, now)), now);
  }
}
