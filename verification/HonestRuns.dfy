/** Honest runs never look tampered with: every checkpoint keeps reproducing, the manifest stays linked and
    matching, and what an anchor reaches never decays. */
module HonestRuns {
  import opened Wrappers
  import opened Chain
  import opened Resume
  import opened RecordFiles
  import opened Rotation
  import opened Anchor
  import opened HonestWorld
  import opened HonestSteps

  // ----- the anchor step

  lemma ProofsKeep<P>(env: Env<P>, proofs: map<string, string>, digest: string, bytes: string, line: AnchorLine)
    requires WellRecorded(env, proofs, line) && Usable(env.t, digest, Proof(bytes))
    ensures WellRecorded(env, proofs[ProofName(digest) := bytes], line)
  {
    hide CheckpointText, Vouched;
    var mine := line.record.digest;
    if ProofName(mine) == ProofName(digest) { SameTail(mine, digest, ".ots"); }
  }

  lemma NewlyRecorded<P>(env: Env<P>, proofs: map<string, string>, segments: nat, composite: string, now: string, s: Submission)
    requires Signs(env.t)
    ensures var cp := SignedCheckpoint(env.t, segments, composite, now);
            var digest := env.hash(CheckpointText(cp));
            if Usable(env.t, digest, s) then
              WellRecorded(env, proofs[ProofName(digest) := s.bytes],
                           Anchored(AnchorRecord(digest, Some(cp), false, Pending, Some(ProofName(digest)))))
            else
              WellRecorded(env, proofs, Anchored(AnchorRecord(digest, Some(cp), true, Pending, None)))
  {
    hide CheckpointText;
    var signed := env.t.sign(segments, composite, now);
  }

  lemma LiveShape<P(!new)>(env: Env<P>, w: World<P>)
    requires Faithful(env.f) && LiveHere(env, w.disk.files, w.live) && w.live.Some?
    ensures ShapeAt(KitOf(env), w.disk.files, LiveAt(KitOf(env))) == Shape(EventsOf(env, w.live.value))
    ensures |EventsOf(env, w.live.value)| == LiveCount(w.live)
  {
    hide Events, EventsOf, TextOf, Shape, LiveAt;
    PieceShape(env, w.live.value);
  }

  lemma LastLive<P>(env: Env<P>, w: World<P>)
    requires HistoryMatches(env, w) && w.live.Some? && EventsOf(env, w.live.value) != []
    ensures w.written != [] && EventsOf(env, w.live.value)[|EventsOf(env, w.live.value)| - 1] == w.written[|w.written| - 1]
  {
    hide EventsOf, InPlace;
    var es := EventsOf(env, w.live.value);
    assert w.written[Before(w.written, w.live)..][|es| - 1] == w.written[|w.written| - 1];
  }

  /** What a pass signs is committed to by what is on disk as it signs. */
  lemma NewlyCommitted<P(!new)>(env: Env<P>, w: World<P>, now: string)
    requires Faithful(env.f) && PathsAgree(env.layout) && FilesMatch(env, w) && HistoryMatches(env, w) && ManifestMatches(env, w)
    requires |w.disk.manifest| == |w.closed| && w.live.Some? && (LiveCount(w.live) > 0 || w.closed != [])
    ensures w.written != []
    ensures Committed(env, w, NextCheckpoint(KitOf(env), env.t, w.disk, now),
                      Commitment(|w.closed|, |w.closed|, LiveCount(w.live), w.written[|w.written| - 1].integrity.chainIndex))
  {
    hide EventsOf, Composite, LiveHere, ClosedHere, InPlace, PathsOf, Manifested, Discovered, PathsAgree, LiveAt, ShapeAt;
    var n := |w.disk.manifest|;
    assert w.disk.manifest[..n] == w.disk.manifest;
    LiveOf(env, w);
    LiveShape(env, w);
    if LiveCount(w.live) == 0 {
      EntryShape(env, w, w.disk.manifest, n - 1);
    } else {
      LastLive(env, w);
    }
  }

  lemma AnchorSeals<P(!new)>(env: Env<P>, w: World<P>, now: string)
    requires Faithful(env.f) && PathsAgree(env.layout) && NoRepeats(w.written) && Honest(env, w)
    ensures var sealed := SealedDisk(KitOf(env), w.disk, now);
            var v := w.(disk := sealed);
            && Honest(env, v) && |sealed.manifest| == |w.closed| && w.disk.manifest <= sealed.manifest
  {
    hide PathsAgree, NoRepeats, Discovered, Adopted, LiveHere, ClosedHere, HistoryMatches, SignedMatch, PathsOf, Manifested, EventsOf;
    var v := w.(disk := SealedDisk(KitOf(env), w.disk, now));
    ManifestedSize(env, w, w.disk.manifest);
    assert PathsOf(env.layout, w.closed)[0..] == PathsOf(env.layout, w.closed);
    AdoptSeals(env, w, w.disk.manifest, 0, now);
    HistoryFrame(env, w, v);
    assert PiecesGrow(env, w, v);
    SignedFrame(env, w, v);
  }

  lemma HistoryFrame<P>(env: Env<P>, w: World<P>, v: World<P>)
    requires HistoryMatches(env, w) && v.written == w.written && v.live == w.live && v.closed == w.closed
    ensures HistoryMatches(env, v)
  {
    hide EventsOf, InPlace;
  }

  lemma AnchorSigns<P>(env: Env<P>, w: World<P>, cp: Checkpoint, s: Submission, com: Commitment, segments: nat, composite: string, now: string)
    requires Signs(env.t) && SignedMatch(env, w) && Committed(env, w, cp, com)
    requires cp == SignedCheckpoint(env.t, segments, composite, now)
    ensures SignedMatch(env, w.(disk := Recorded(KitOf(env), env.t, w.disk, cp, s), signed := w.signed + [com]))
  {
    hide Committed, WellRecorded, Usable, CheckpointText, Signs, SignedCheckpoint, EventsOf;
    var v := w.(disk := Recorded(KitOf(env), env.t, w.disk, cp, s), signed := w.signed + [com]);
    NewlyRecorded(env, w.disk.proofs, segments, composite, now, s);
    assert PiecesGrow(env, w, v);
    var digest := env.hash(CheckpointText(cp));
    forall i | 0 <= i < |v.signed|
      ensures WellRecorded(env, v.disk.proofs, v.disk.anchors[i])
    {
      if i < |w.signed| && Usable(env.t, digest, s) {
        UsableProof(env.t, digest, s);
        ProofsKeep(env, w.disk.proofs, digest, s.bytes, w.disk.anchors[i]);
      }
    }
    forall i | 0 <= i < |v.signed|
      ensures v.disk.anchors[i].Anchored? && v.disk.anchors[i].record.checkpoint.Some?
    {
      RecordedForm(env, v.disk.proofs, v.disk.anchors[i]);
    }
    forall i | 0 <= i < |v.signed|
      ensures Committed(env, v, v.disk.anchors[i].record.checkpoint.value, v.signed[i])
    {
      CommittedFrame(env, w, v, v.disk.anchors[i].record.checkpoint.value, v.signed[i]);
    }
  }

  lemma UsableProof(t: Trust, digest: string, s: Submission)
    requires Usable(t, digest, s)
    ensures s.Proof? && Usable(t, digest, Proof(s.bytes))
  {
  }

  lemma AnchorKeeps<P(!new)>(env: Env<P>, w: World<P>, now: string, s: Submission)
    requires Faithful(env.f) && PathsAgree(env.layout) && Signs(env.t) && NoRepeats(w.written) && Honest(env, w)
    ensures Honest(env, AnchorStep(env, w, now, s))
  {
    hide FilesMatch, HistoryMatches, ManifestMatches, ChainMatches, SignedMatch, PathsAgree, Signs, NoRepeats, AnchorPass, Recorded, NextCheckpoint,
      Committed, SealedDisk, LiveAt, ShapeAt, Honest;
    var k, v := KitOf(env), AnchorStep(env, w, now, s);
    var sealed := SealedDisk(k, w.disk, now);
    AnchorCases(k, env.t, w.disk, now, s);
    AnchorSeals(env, w, now);
    var mid := w.(disk := sealed);
    HonestParts(env, w);
    HonestParts(env, mid);
    SealedFiles(k, w.disk, now);
    if LiveAt(k) in w.disk.files && (ShapeAt(k, w.disk.files, LiveAt(k)).Some? || sealed.manifest != []) {
      LiveCases(env, w);
      NewlyCommitted(env, mid, now);
      var cp := NextCheckpoint(k, env.t, sealed, now);
      var com := v.signed[|w.signed|];
      NextSigned(k, env.t, sealed, now);
      AnchorSigns(env, mid, cp, s, com, |sealed.manifest|, cp.hash, now);
      assert v == mid.(disk := Recorded(k, env.t, sealed, cp, s), signed := w.signed + [com]);
      RecordedFrame(env, mid, cp, s, com);
    } else {
      AnchorQuiet(k, env.t, w.disk, now, s);
      assert v == w || v == mid;
    }
  }

  lemma AnchorQuiet(k: Kit, t: Trust, disk: Disk, now: string, s: Submission)
    requires !(LiveAt(k) in disk.files && (ShapeAt(k, disk.files, LiveAt(k)).Some? || SealedDisk(k, disk, now).manifest != []))
    ensures AnchorPass(k, t, disk, now, s) == disk || AnchorPass(k, t, disk, now, s) == SealedDisk(k, disk, now)
  {
    hide Adopted, Discovered, ShapeAt;
  }

  lemma HonestParts<P>(env: Env<P>, w: World<P>)
    ensures Honest(env, w) <==>
              FilesMatch(env, w) && ChainMatches(env, w) && HistoryMatches(env, w) && ManifestMatches(env, w) && SignedMatch(env, w)
  {
  }

  lemma SealedFiles(k: Kit, disk: Disk, now: string)
    ensures var sealed := SealedDisk(k, disk, now);
            sealed.files == disk.files && sealed.anchors == disk.anchors && sealed == disk.(manifest := sealed.manifest)
  {
    hide Adopted, Discovered;
  }

  lemma NextSigned(k: Kit, t: Trust, disk: Disk, now: string)
    ensures var cp := NextCheckpoint(k, t, disk, now); cp == SignedCheckpoint(t, |disk.manifest|, cp.hash, now)
  {
    hide Composite, ShapeAt;
  }

  lemma LiveCases<P(!new)>(env: Env<P>, w: World<P>)
    requires Faithful(env.f) && FilesMatch(env, w) && LiveAt(KitOf(env)) in w.disk.files
    ensures w.live.Some? && (ShapeAt(KitOf(env), w.disk.files, LiveAt(KitOf(env))).Some? <==> LiveCount(w.live) > 0)
  {
    hide EventsOf, LiveAt, Discovered, ShapeAt;
    LiveShape(env, w);
  }

  /** Recording a checkpoint touches neither the files nor the manifest. */
  lemma RecordedFrame<P>(env: Env<P>, w: World<P>, cp: Checkpoint, s: Submission, com: Commitment)
    requires FilesMatch(env, w) && ChainMatches(env, w) && HistoryMatches(env, w) && ManifestMatches(env, w)
    requires SignedMatch(env, w.(disk := Recorded(KitOf(env), env.t, w.disk, cp, s), signed := w.signed + [com]))
    ensures Honest(env, w.(disk := Recorded(KitOf(env), env.t, w.disk, cp, s), signed := w.signed + [com]))
  {
    hide SignedMatch, LiveHere, ClosedHere, Discovered, Manifested, CheckpointText, Usable, HistoryMatches;
    HistoryFrame(env, w, w.(disk := Recorded(KitOf(env), env.t, w.disk, cp, s), signed := w.signed + [com]));
  }

  // ----- runs

  lemma BootHonest<P>(env: Env<P>)
    ensures Honest(env, Boot<P>())
  {
    hide LiveAt;
  }

  lemma {:induction false} WrittenGrows<P>(env: Env<P>, w: World<P>, ops: seq<Op<P>>)
    ensures w.written <= Run(env, w, ops).written
    decreases ops
  {
    hide AppendStep, RotateStep, RestartStep, AnchorStep;
    if ops != [] {
      StepGrows(env, w, ops[0]);
      WrittenGrows(env, Step(env, w, ops[0]), ops[1..]);
    }
  }

  /** History only grows: what was written and signed stays. */
  lemma StepGrows<P>(env: Env<P>, w: World<P>, op: Op<P>)
    ensures var v := Step(env, w, op); w.written <= v.written && w.signed <= v.signed
  {
    hide AnchorPass, LiveAt, HashMaterial, CanRotate, RotatedFiles, FromCandidates, Window;
  }

  lemma StepKeeps<P(!new)>(env: Env<P>, w: World<P>, op: Op<P>)
    requires Faithful(env.f) && PathsAgree(env.layout) && Signs(env.t) && NoRepeats(w.written) && Honest(env, w)
    ensures Honest(env, Step(env, w, op))
  {
    hide Honest, PathsAgree, Signs, NoRepeats, AppendStep, RotateStep, RestartStep, AnchorStep;
    match op
    case Append(p) => AppendKeeps(env, w, p);
    case Rotate(name, create) => RotateKeeps(env, w, name, create);
    case Restart(chunk) => HonestSteps.RestartKeeps(env, w, chunk + 1);
    case Anchor(now, s) => AnchorKeeps(env, w, now, s);
  }

  lemma {:induction false} RunKeeps<P(!new)>(env: Env<P>, w: World<P>, ops: seq<Op<P>>)
    requires Faithful(env.f) && PathsAgree(env.layout) && Signs(env.t)
    requires NoRepeats(Run(env, w, ops).written) && Honest(env, w)
    ensures Honest(env, Run(env, w, ops))
    decreases ops
  {
    hide Honest, PathsAgree, Signs, Step;
    if ops != [] {
      WrittenGrows(env, w, ops);
      StepKeeps(env, w, ops[0]);
      RunKeeps(env, Step(env, w, ops[0]), ops[1..]);
    }
  }
}
