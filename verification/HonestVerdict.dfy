/** The verdict on an honest run, and how far its anchors reach. */
module HonestVerdict {
  import opened Chain
  import opened Resume
  import opened RecordFiles
  import opened Rotation
  import opened Anchor
  import opened Intact
  import opened HonestWorld
  import opened HonestSteps
  import opened HonestRuns

  function CheckpointOf<P>(w: World<P>, i: nat): Checkpoint
    requires i < |w.disk.anchors| && w.disk.anchors[i].Anchored? && w.disk.anchors[i].record.checkpoint.Some?
  {
    w.disk.anchors[i].record.checkpoint.value
  }

  lemma SignedAt<P>(env: Env<P>, w: World<P>, i: nat)
    requires SignedMatch(env, w) && i < |w.signed|
    ensures |w.signed| == |w.disk.anchors| && WellRecorded(env, w.disk.proofs, w.disk.anchors[i])
    ensures w.disk.anchors[i].Anchored? && w.disk.anchors[i].record.checkpoint.Some?
    ensures Committed(env, w, CheckpointOf(w, i), w.signed[i])
  {
    hide Committed;
    RecordedForm(env, w.disk.proofs, w.disk.anchors[i]);
  }

  // ----- every checkpoint keeps reproducing

  function PieceFile<P>(env: Env<P>, w: World<P>, i: nat): string {
    if i < |w.closed| then ClosedAt(env.layout, w.closed[i].name) else LiveAt(KitOf(env))
  }

  lemma PieceOnDisk<P(!new)>(env: Env<P>, w: World<P>, i: nat)
    requires Faithful(env.f) && FilesMatch(env, w) && HasPiece(w, i)
    ensures PieceFile(env, w, i) in w.disk.files
    ensures Events(env.f.read, w.disk.files[PieceFile(env, w, i)]) == EventsOf(env, PieceAt(w, i))
    ensures |EventsOf(env, PieceAt(w, i))| == |PieceAt(w, i).ps|
  {
    hide Events, EventsOf, TextOf, ClosedAt, LiveAt, ClosedName, Discovered, Verified;
    PieceShape(env, PieceAt(w, i));
    if i < |w.closed| { assert ClosedHere(env, w.disk.files, w.closed[i]); }
  }

  /** The file of a piece that was not yet sealed when a checkpoint was signed can hold its live tail. */
  lemma PieceEligible<P>(env: Env<P>, w: World<P>, segments: nat, i: nat)
    requires PathsAgree(env.layout) && FilesMatch(env, w) && ManifestMatches(env, w) && HasPiece(w, i)
    requires segments <= |w.disk.manifest| && segments <= i
    ensures PieceFile(env, w, i) in Eligible(KitOf(env), w.disk, segments)
  {
    hide PathsAgree, LiveAt, ClosedAt, ClosedName, Discovered, ClosedPath, SegmentPath, ManifestProblems, TextOf, Resolve, LiveHere;
    var k, at := KitOf(env), PieceFile(env, w, i);
    var sealed, later := SegmentPaths(k, w.disk.manifest[..segments]), SegmentPaths(k, w.disk.manifest[segments..]);
    var found := Discovered(k, w.disk.files, w.disk.listing);
    AddAllHolds([LiveAt(k)], StillOpen(k, found, sealed) + later, at);
    if i < |w.closed| {
      assert found[i] == ClosedPath(env.layout, w.closed[i].name);
      ResolveClosed(env.layout, w.closed[i].name);
      NotSealed(env, w, segments, i);
      StillOpenHolds(k, found, sealed, found[i]);
    }
  }

  lemma NotSealed<P>(env: Env<P>, w: World<P>, segments: nat, i: nat)
    requires PathsAgree(env.layout) && FilesMatch(env, w) && ManifestMatches(env, w)
    requires segments <= |w.disk.manifest| && segments <= i < |w.closed|
    ensures ClosedAt(env.layout, w.closed[i].name) !in SegmentPaths(KitOf(env), w.disk.manifest[..segments])
  {
    hide PathsAgree, LiveAt, ClosedAt, ClosedName, Discovered, ClosedPath, SegmentPath, ManifestProblems, TextOf, Resolve, LiveHere;
    assert ClosedHere(env, w.disk.files, w.closed[i]);
    forall j | 0 <= j < segments
      ensures SegmentPath(env.layout, w.disk.manifest[j].path) != ClosedAt(env.layout, w.closed[i].name)
    {
      assert ClosedHere(env, w.disk.files, w.closed[j]);
      EntryFinds(env.layout, w.closed[j].name);
      ClosedAtInjective(env.layout, w.closed[j].name, w.closed[i].name);
    }
  }

  lemma {:induction false} ToFile(k: Kit, files: Files, paths: seq<string>, path: string, i: nat)
    requires path in paths && path in files && i < |Events(k.read, files[path])|
    ensures Prefixes(Events(k.read, files[path]))[i] in FileOffers(k, files, paths)
  {
    hide Events;
    if path != paths[0] {
      ToFile(k, files, paths[1..], path, i);
    } else {
      assert FileOffers(k, files, paths)[i] == Prefixes(Events(k.read, files[path]))[i];
    }
  }

  /** The committed tail is among the candidates rebuilt from disk. */
  lemma TailOffered<P(!new)>(env: Env<P>, w: World<P>, segments: nat, i: nat, count: nat)
    requires Faithful(env.f) && PathsAgree(env.layout) && FilesMatch(env, w) && ManifestMatches(env, w) && HasPiece(w, i)
    requires segments <= |w.disk.manifest| && segments <= i && 0 < count <= |PieceAt(w, i).ps|
    ensures TailFor(env, PieceAt(w, i), count) in Tails(Anchor.Candidates(KitOf(env), w.disk, segments))
  {
    hide PathsAgree, FilesMatch, ManifestMatches, PieceAt, PieceFile, Eligible, Events, EventsOf, HasPiece, EntryOffers;
    var k, at := KitOf(env), PieceFile(env, w, i);
    PieceOnDisk(env, w, i);
    PieceEligible(env, w, segments, i);
    var paths := Eligible(k, w.disk, segments);
    ToFile(k, w.disk.files, paths, at, count - 1);
    var c := Prefixes(Events(k.read, w.disk.files[at]))[count - 1];
    assert c in Offers(k, w.disk, segments);
    OfferAllTails([], Offers(k, w.disk, segments));
    assert c.tail == TailFor(env, PieceAt(w, i), count);
  }

  lemma HonestReproduces<P(!new)>(env: Env<P>, w: World<P>, cp: Checkpoint, com: Commitment)
    requires Faithful(env.f) && PathsAgree(env.layout) && FilesMatch(env, w) && ManifestMatches(env, w) && Committed(env, w, cp, com)
    ensures Reproduces(KitOf(env), w.disk, cp)
  {
    hide PathsAgree, FilesMatch, ManifestMatches, TailFor, EventsOf, Anchor.Candidates, Composite, HeadAt;
    if com.count > 0 {
      var tail := TailFor(env, PieceAt(w, com.piece), com.count);
      TailOffered(env, w, com.segments, com.piece, com.count);
      var c :| c in Anchor.Candidates(KitOf(env), w.disk, com.segments) && c.tail == tail;
    }
  }

  // ----- the three layers on an honest disk

  lemma {:induction false} NothingFound(k: Kit, files: Files, paths: seq<string>)
    requires forall i | 0 <= i < |paths| && paths[i] in files :: Verified(k.read, k.gaps, k.hash, files[paths[i]]).problems == []
    ensures ChainProblems(k, files, paths) == []
  {
    hide Verified;
    if paths != [] { NothingFound(k, files, paths[1..]); }
  }

  lemma WalkClean<P(!new)>(env: Env<P>, w: World<P>, path: string)
    requires Faithful(env.f) && PathsAgree(env.layout) && FilesMatch(env, w) && ManifestMatches(env, w)
    requires path in WalkPaths(KitOf(env), w.disk) && path in w.disk.files
    ensures Verified(env.f.read, env.f.gaps, env.hash, w.disk.files[path]).problems == []
  {
    hide PathsAgree, LiveAt, ClosedAt, ClosedName, Discovered, ClosedPath, SegmentPath, ManifestProblems, TextOf, Verified, EventsOf, Events;
    var k := KitOf(env);
    var segs := SegmentPaths(k, w.disk.manifest);
    AddAllHolds([], segs + [LiveAt(k)], path);
    if path in segs {
      var i :| 0 <= i < |segs| && segs[i] == path;
      assert ClosedHere(env, w.disk.files, w.closed[i]);
      EntryFinds(env.layout, w.closed[i].name);
      PieceShape(env, w.closed[i].piece);
    } else {
      PieceShape(env, w.live.value);
    }
  }

  lemma {:induction false} AllSealed(k: Kit, paths: seq<string>, closed: seq<string>)
    requires forall i | 0 <= i < |paths| :: Resolve(k.layout, paths[i]) in closed
    ensures StillOpen(k, paths, closed) == []
  {
    hide Resolve;
    if paths != [] { AllSealed(k, paths[1..], closed); }
  }

  /** Nothing is unsealed exactly when the manifest has caught up with the rotations. */
  lemma UnsealedExactly<P>(env: Env<P>, w: World<P>)
    requires PathsAgree(env.layout) && FilesMatch(env, w) && ManifestMatches(env, w)
    ensures Unsealed(KitOf(env), w.disk) == 0 <==> |w.disk.manifest| == |w.closed|
  {
    hide PathsAgree, LiveAt, ClosedAt, ClosedName, Discovered, ClosedPath, SegmentPath, ManifestProblems, TextOf, Resolve, LiveHere;
    var k, n := KitOf(env), |w.disk.manifest|;
    var found, sealed := Discovered(k, w.disk.files, w.disk.listing), SegmentPaths(k, w.disk.manifest);
    assert w.disk.manifest[..n] == w.disk.manifest;
    if n < |w.closed| {
      assert found[n] == ClosedPath(env.layout, w.closed[n].name);
      ResolveClosed(env.layout, w.closed[n].name);
      NotSealed(env, w, n, n);
      StillOpenHolds(k, found, sealed, found[n]);
    } else {
      forall i | 0 <= i < |found|
        ensures Resolve(k.layout, found[i]) in sealed
      {
        assert ClosedHere(env, w.disk.files, w.closed[i]);
        ResolveClosed(env.layout, w.closed[i].name);
        EntryFinds(env.layout, w.closed[i].name);
        assert sealed[i] == Resolve(k.layout, found[i]);
      }
      AllSealed(k, found, sealed);
    }
  }

  lemma LineClean<P(!new)>(env: Env<P>, w: World<P>, i: nat)
    requires Faithful(env.f) && PathsAgree(env.layout) && Honest(env, w) && i < |w.signed|
    ensures |w.signed| == |w.disk.anchors|
    ensures LineAnchorProblems(KitOf(env), env.t, w.disk, w.disk.anchors[i]) == []
  {
    hide PathsAgree, FilesMatch, ManifestMatches, HistoryMatches, ChainMatches, Committed, CheckpointText, Vouched, Reproduces;
    SignedAt(env, w, i);
    HonestReproduces(env, w, CheckpointOf(w, i), w.signed[i]);
  }

  lemma {:induction false} AllLinesClean(k: Kit, t: Trust, disk: Disk, lines: seq<AnchorLine>)
    requires forall i | 0 <= i < |lines| :: LineAnchorProblems(k, t, disk, lines[i]) == []
    ensures AnchorProblems(k, t, disk, lines) == []
    decreases lines
  {
    hide LineAnchorProblems;
    if lines != [] { AllLinesClean(k, t, disk, lines[..|lines| - 1]); }
  }

  predicate ReachedCalendar(line: AnchorLine) { line.Anchored? && !line.record.failed && line.record.status == Pending }

  lemma {:induction false} TallyPositive(lines: seq<AnchorLine>)
    ensures Tally(lines, Pending) > 0 <==> exists i :: 0 <= i < |lines| && ReachedCalendar(lines[i])
    decreases lines
  {
    if lines != [] {
      var n := |lines| - 1;
      TallyPositive(lines[..n]);
      assert forall i | 0 <= i < n :: lines[..n][i] == lines[i];
    }
  }

  lemma {:induction false} NoneConfirmed<P>(env: Env<P>, proofs: map<string, string>, lines: seq<AnchorLine>)
    requires forall i | 0 <= i < |lines| :: WellRecorded(env, proofs, lines[i])
    ensures Tally(lines, Confirmed) == 0
    decreases lines
  {
    hide CheckpointText, Vouched, Usable;
    if lines != [] {
      assert WellRecorded(env, proofs, lines[|lines| - 1]);
      NoneConfirmed(env, proofs, lines[..|lines| - 1]);
    }
  }

  /** No layer finds a problem. The verdict is clean exactly when every rotated file is sealed and some
      submission reached a calendar. */
  ghost predicate Untampered<P>(env: Env<P>, w: World<P>) {
    var v := Verdict(KitOf(env), env.t, w.disk);
    && v.chained == [] && v.linked == [] && v.anchored == []
    && (forall i | 0 <= i < |w.disk.anchors| :: w.disk.anchors[i].Anchored? && w.disk.anchors[i].record.checkpoint.Some?
                                           && Reproduces(KitOf(env), w.disk, w.disk.anchors[i].record.checkpoint.value))
    && (v.ok <==> |w.disk.manifest| == |w.closed| && exists i :: 0 <= i < |w.disk.anchors| && ReachedCalendar(w.disk.anchors[i]))
  }

  lemma LayersClean<P(!new)>(env: Env<P>, w: World<P>)
    requires Faithful(env.f) && PathsAgree(env.layout) && Honest(env, w)
    ensures ChainProblems(KitOf(env), w.disk.files, WalkPaths(KitOf(env), w.disk)) == []
    ensures ManifestProblems(KitOf(env), w.disk.files, w.disk.manifest) == []
    ensures AnchorProblems(KitOf(env), env.t, w.disk, LogRead(w.disk)) == []
    ensures LogRead(w.disk) == w.disk.anchors && |w.signed| == |w.disk.anchors|
  {
    hide PathsAgree, FilesMatch, HistoryMatches, ChainMatches, Committed, WellRecorded, Verified, WalkPaths, LineAnchorProblems;
    var k := KitOf(env);
    var paths := WalkPaths(k, w.disk);
    forall i | 0 <= i < |paths| && paths[i] in w.disk.files
      ensures Verified(k.read, k.gaps, k.hash, w.disk.files[paths[i]]).problems == []
    {
      WalkClean(env, w, paths[i]);
    }
    NothingFound(k, w.disk.files, paths);
    forall i | 0 <= i < |w.disk.anchors|
      ensures LineAnchorProblems(k, env.t, w.disk, w.disk.anchors[i]) == []
    {
      LineClean(env, w, i);
    }
    AllLinesClean(k, env.t, w.disk, w.disk.anchors);
  }

  lemma HonestUntampered<P(!new)>(env: Env<P>, w: World<P>)
    requires Faithful(env.f) && PathsAgree(env.layout) && Honest(env, w)
    ensures Untampered(env, w)
  {
    hide PathsAgree, FilesMatch, ManifestMatches, HistoryMatches, ChainMatches, Committed, ManifestProblems, ChainProblems, AnchorProblems,
      WalkPaths, Reproduces, Unsealed, LogRead, ReachedCalendar, WellRecorded;
    LayersClean(env, w);
    UnsealedExactly(env, w);
    TallyPositive(w.disk.anchors);
    NoneConfirmed(env, w.disk.proofs, w.disk.anchors);
    forall i | 0 <= i < |w.disk.anchors|
      ensures w.disk.anchors[i].Anchored? && w.disk.anchors[i].record.checkpoint.Some?
              && Reproduces(KitOf(env), w.disk, w.disk.anchors[i].record.checkpoint.value)
    {
      SignedAt(env, w, i);
      HonestReproduces(env, w, CheckpointOf(w, i), w.signed[i]);
    }
  }

  // ----- distinct records have distinct hashes

  /** No payload is written twice (each carries its own event id), and the hash tells the records apart. */
  ghost predicate Fresh<P>(env: Env<P>, w: World<P>) {
    && (forall i, j | 0 <= i < j < |w.written| :: w.written[i].payload != w.written[j].payload)
    && CollisionFree(env.hash, Materials(w.written))
  }

  predicate AllHashed(hash: Hash, es: seq<Event>) { forall i | 0 <= i < |es| :: es[i].integrity.hash == hash(Material(es[i])) }

  lemma {:induction false} WrittenHashed<P>(env: Env<P>, w: World<P>, ops: seq<Op<P>>)
    requires AllHashed(env.hash, w.written)
    ensures AllHashed(env.hash, Run(env, w, ops).written)
    decreases ops
  {
    hide RotateStep, RestartStep, AnchorStep, HashMaterial, LiveAt;
    if ops != [] {
      StepHashed(env, w, ops[0]);
      WrittenHashed(env, Step(env, w, ops[0]), ops[1..]);
    }
  }

  lemma StepHashed<P>(env: Env<P>, w: World<P>, op: Op<P>)
    requires AllHashed(env.hash, w.written)
    ensures AllHashed(env.hash, Step(env, w, op).written)
  {
    hide AnchorPass, LiveAt, HashMaterial, CanRotate, RotatedFiles, FromCandidates, Window;
  }

  lemma FreshNoRepeats<P>(env: Env<P>, w: World<P>)
    requires Fresh(env, w) && AllHashed(env.hash, w.written)
    ensures NoRepeats(w.written)
  {
    hide HashMaterial, Material;
    forall i, j | 0 <= i < j < |w.written|
      ensures w.written[i].integrity.hash != w.written[j].integrity.hash
    {
      var x, y := w.written[i], w.written[j];
      if Material(x) == Material(y) { SamePayload(x, y); assert false; }
      assert Material(x) in Materials(w.written) && Material(y) in Materials(w.written);
    }
  }

  lemma SamePayload(x: Event, y: Event)
    requires Material(x) == Material(y)
    ensures x.payload == y.payload
  {
    MaterialInjective(x.payload, StateOf(x), y.payload, StateOf(y));
  }

  lemma RunHonest<P(!new)>(env: Env<P>, ops: seq<Op<P>>)
    requires Faithful(env.f) && PathsAgree(env.layout) && Signs(env.t) && Fresh(env, Run(env, Boot<P>(), ops))
    ensures Honest(env, Run(env, Boot<P>(), ops)) && NoRepeats(Run(env, Boot<P>(), ops).written)
  {
    hide Run, Honest, PathsAgree, Signs, Fresh, NoRepeats;
    BootHonest(env);
    WrittenHashed(env, Boot<P>(), ops);
    FreshNoRepeats(env, Run(env, Boot<P>(), ops));
    HonestRuns.RunKeeps(env, Boot<P>(), ops);
  }

  // ----- main results on runs

  /** After any run of appends, rotations to fresh names, restarts and anchor passes, no layer finds a
      problem and every checkpoint ever signed reproduces from disk. */
  lemma HonestRunsNeverLookTampered<P(!new)>(env: Env<P>, ops: seq<Op<P>>)
    requires Faithful(env.f) && PathsAgree(env.layout) && Signs(env.t) && Fresh(env, Run(env, Boot<P>(), ops))
    ensures Untampered(env, Run(env, Boot<P>(), ops))
  {
    hide Run, Honest, PathsAgree, Signs, Fresh, NoRepeats, Untampered;
    RunHonest(env, ops);
    HonestUntampered(env, Run(env, Boot<P>(), ops));
  }

  /** A pass has something to sign. */
  predicate Anchorable<P>(w: World<P>) { w.live.Some? && (LiveCount(w.live) > 0 || w.closed != []) }

  /** The checkpoint a pass on this world signs got a proof that parses and reaches an attestation. */
  predicate ProofStored<P>(env: Env<P>, w: World<P>, now: string, s: Submission) {
    Usable(env.t, env.hash(CheckpointText(NextCheckpoint(KitOf(env), env.t, SealedDisk(KitOf(env), w.disk, now), now))), s)
  }

  lemma PassVerifies<P(!new)>(env: Env<P>, w: World<P>, now: string, s: Submission)
    requires Faithful(env.f) && PathsAgree(env.layout) && Signs(env.t) && NoRepeats(w.written) && Honest(env, w)
    requires Anchorable(w) && ProofStored(env, w, now, s)
    ensures Verdict(KitOf(env), env.t, AnchorStep(env, w, now, s).disk).ok
  {
    hide Honest, PathsAgree, Signs, NoRepeats, ProofStored, Verdict, AnchorStep, ReachedCalendar, Anchorable;
    var v := AnchorStep(env, w, now, s);
    AnchorKeeps(env, w, now, s);
    HonestUntampered(env, v);
    PassCatchesUp(env, w, now, s);
  }

  /** Right after a pass that stored a proof, all three layers pass. */
  lemma AnchoredRunVerifies<P(!new)>(env: Env<P>, ops: seq<Op<P>>, now: string, s: Submission)
    requires Faithful(env.f) && PathsAgree(env.layout) && Signs(env.t) && Fresh(env, Run(env, Boot<P>(), ops))
    requires Anchorable(Run(env, Boot<P>(), ops)) && ProofStored(env, Run(env, Boot<P>(), ops), now, s)
    ensures Verdict(KitOf(env), env.t, Step(env, Run(env, Boot<P>(), ops), Anchor(now, s)).disk).ok
  {
    hide Run, Honest, PathsAgree, Signs, Fresh, NoRepeats, ProofStored, Verdict, AnchorStep, Anchorable;
    RunHonest(env, ops);
    PassVerifies(env, Run(env, Boot<P>(), ops), now, s);
  }

  lemma PassCatchesUp<P(!new)>(env: Env<P>, w: World<P>, now: string, s: Submission)
    requires Faithful(env.f) && PathsAgree(env.layout) && NoRepeats(w.written) && Honest(env, w) && Anchorable(w)
    requires ProofStored(env, w, now, s)
    ensures var v := AnchorStep(env, w, now, s);
            && |v.disk.manifest| == |v.closed| && v.disk.anchors != []
            && ReachedCalendar(v.disk.anchors[|v.disk.anchors| - 1])
  {
    hide PathsAgree, NoRepeats, SealedDisk, Usable, NextCheckpoint, CheckpointText, AnchorPass, LiveAt, HistoryMatches, ManifestMatches, SignedMatch,
      FilesMatch, ShapeAt;
    var k := KitOf(env);
    AnchorSeals(env, w, now);
    AnchorCases(k, env.t, w.disk, now, s);
    LiveOf(env, w);
    if LiveCount(w.live) > 0 { LiveCases(env, w); }
    assert LiveAt(k) in w.disk.files;
  }
}
