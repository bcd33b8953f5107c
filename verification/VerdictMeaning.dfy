/** What the verdict of runVerify (src/audit/anchor-service.ts) says, problem by problem and taken as a whole. */
module VerdictMeaning {
  import opened Wrappers
  import opened Chain
  import opened Rotation
  import opened Anchor
  import Intact

  // ----- one record of the anchor log

  /** The record names proof bytes that are there. */
  predicate HasBytes(disk: Disk, r: AnchorRecord) {
    match r.proofPath
    case None => false
    case Some(name) => name != "" && name in disk.proofs && disk.proofs[name] != ""
  }

  /** Those bytes lead from the digest submitted to an attestation. */
  predicate Attested(t: Trust, disk: Disk, r: AnchorRecord)
    requires HasBytes(disk, r)
  {
    match t.attests(disk.proofs[r.proofPath.value], r.digest)
    case None => false
    case Some(n) => n >= 1
  }

  /** The pinned key signed it. */
  predicate Signed(t: Trust, cp: Checkpoint) { t.checks(cp) && cp.publicKey == t.publicKey }

  /** The head it committed to still ends as many sealed segments, and the tail it committed to, if any, is one the
      evidence can have had. */
  ghost predicate Rebuilt(k: Kit, disk: Disk, cp: Checkpoint) {
    && cp.chainIndex <= |disk.manifest|
    && var head := if cp.chainIndex == 0 then None else Some(disk.manifest[cp.chainIndex - 1].finalHash);
       || cp.hash == k.hash(CompositeText(head, cp.chainIndex, None))
       || exists c :: c in Candidates(k, disk, cp.chainIndex) && cp.hash == k.hash(CompositeText(head, cp.chainIndex, Some(c.tail)))
  }

  lemma RebuiltExactly(k: Kit, disk: Disk, cp: Checkpoint)
    ensures Reproduces(k, disk, cp) <==> Rebuilt(k, disk, cp)
  {
    hide CompositeText, Candidates;
  }

  /** Everything a record is held to. */
  ghost predicate Sound(k: Kit, t: Trust, disk: Disk, r: AnchorRecord) {
    && r.checkpoint.Some?
    && var cp := r.checkpoint.value;
       && Signed(t, cp) && r.digest == k.hash(CheckpointText(cp)) && Rebuilt(k, disk, cp)
       && (!r.failed ==> HasBytes(disk, r) && Attested(t, disk, r))
  }

  lemma ProofReported(t: Trust, disk: Disk, r: AnchorRecord)
    ensures var found := ProofProblems(t, disk, r);
            && (ProofMissing in found <==> !r.failed && !HasBytes(disk, r))
            && (ProofParseError in found <==> !r.failed && HasBytes(disk, r) && !Attested(t, disk, r))
            && forall p :: p in found ==> p == ProofMissing || p == ProofParseError
  {
  }

  lemma CheckpointReported(k: Kit, t: Trust, disk: Disk, r: AnchorRecord, n: nat)
    ensures var found := CheckpointProblems(k, t, disk, r);
            && (NoCheckpoint in found <==> r.checkpoint.None?)
            && (BadSignature(n) in found <==> r.checkpoint.Some? && n == r.checkpoint.value.chainIndex && !Signed(t, r.checkpoint.value))
            && (DigestMismatch(n) in found
                <==> r.checkpoint.Some? && n == r.checkpoint.value.chainIndex && r.digest != k.hash(CheckpointText(r.checkpoint.value)))
            && (LiveTailMismatch(n) in found
                <==> r.checkpoint.Some? && n == r.checkpoint.value.chainIndex && !Rebuilt(k, disk, r.checkpoint.value))
            && ProofMissing !in found && ProofParseError !in found && BadLine !in found
  {
    hide Reproduces, Rebuilt, CheckpointText;
    if r.checkpoint.Some? { RebuiltExactly(k, disk, r.checkpoint.value); }
  }

  /** Which problem a record is reported with, in each case: a proof problem only when it carries no error, one for
      bytes that are not there and another for bytes that attest nothing. */
  lemma ReportedFor(k: Kit, t: Trust, disk: Disk, r: AnchorRecord, n: nat)
    ensures var found := LineAnchorProblems(k, t, disk, Anchored(r));
            && (ProofMissing in found <==> !r.failed && !HasBytes(disk, r))
            && (ProofParseError in found <==> !r.failed && HasBytes(disk, r) && !Attested(t, disk, r))
            && (NoCheckpoint in found <==> r.checkpoint.None?)
            && (BadSignature(n) in found <==> r.checkpoint.Some? && n == r.checkpoint.value.chainIndex && !Signed(t, r.checkpoint.value))
            && (DigestMismatch(n) in found
                <==> r.checkpoint.Some? && n == r.checkpoint.value.chainIndex && r.digest != k.hash(CheckpointText(r.checkpoint.value)))
            && (LiveTailMismatch(n) in found
                <==> r.checkpoint.Some? && n == r.checkpoint.value.chainIndex && !Rebuilt(k, disk, r.checkpoint.value))
            && BadLine !in found
  {
    hide Rebuilt, CheckpointText, CheckpointProblems, ProofProblems, HasBytes, Signed;
    ProofReported(t, disk, r);
    CheckpointReported(k, t, disk, r, n);
  }

  /** A record is reported with nothing exactly when it is sound. */
  lemma CleanRecordExactly(k: Kit, t: Trust, disk: Disk, r: AnchorRecord)
    ensures LineAnchorProblems(k, t, disk, Anchored(r)) == [] <==> Sound(k, t, disk, r)
  {
    hide Reproduces, Rebuilt, CheckpointText;
    if r.checkpoint.Some? { RebuiltExactly(k, disk, r.checkpoint.value); }
  }

  // ----- the log

  /** A problem is in the report of the layer exactly when some line of the log has it. */
  lemma {:induction false} ProblemsExactly(k: Kit, t: Trust, disk: Disk, lines: seq<AnchorLine>, p: AnchorProblem)
    ensures p in AnchorProblems(k, t, disk, lines)
       <==> exists i :: 0 <= i < |lines| && p in LineAnchorProblems(k, t, disk, lines[i])
    decreases lines
  {
    hide LineAnchorProblems;
    if lines != [] {
      var n := |lines| - 1;
      ProblemsExactly(k, t, disk, lines[..n], p);
      assert forall i :: 0 <= i < n ==> lines[..n][i] == lines[i];
    }
  }

  ghost predicate LineSound(k: Kit, t: Trust, disk: Disk, line: AnchorLine) { line.Anchored? && Sound(k, t, disk, line.record) }

  lemma CleanLineExactly(k: Kit, t: Trust, disk: Disk, line: AnchorLine)
    ensures LineAnchorProblems(k, t, disk, line) == [] <==> LineSound(k, t, disk, line)
  {
    hide Sound, CheckpointProblems, ProofProblems;
    if line.Anchored? { CleanRecordExactly(k, t, disk, line.record); } else { assert LineAnchorProblems(k, t, disk, line) == [BadLine]; }
  }

  lemma {:induction false} CleanLogExactly(k: Kit, t: Trust, disk: Disk, lines: seq<AnchorLine>)
    ensures AnchorProblems(k, t, disk, lines) == [] <==> forall i :: 0 <= i < |lines| ==> LineSound(k, t, disk, lines[i])
    decreases lines
  {
    hide LineAnchorProblems, LineSound;
    if lines != [] {
      var n := |lines| - 1;
      CleanLogExactly(k, t, disk, lines[..n]);
      assert forall i :: 0 <= i < n ==> lines[..n][i] == lines[i];
      CleanLineExactly(k, t, disk, lines[n]);
    }
  }

  /** A line that says its anchor reached a calendar, and carries no error. */
  predicate Claims(line: AnchorLine) { line.Anchored? && !line.record.failed && (line.record.status == Pending || line.record.status == Confirmed) }

  lemma {:induction false} TallyExactly(lines: seq<AnchorLine>)
    ensures Tally(lines, Pending) + Tally(lines, Confirmed) > 0 <==> exists i :: 0 <= i < |lines| && Claims(lines[i])
    decreases lines
  {
    if lines != [] {
      var n := |lines| - 1;
      TallyExactly(lines[..n]);
      assert forall i :: 0 <= i < n ==> lines[..n][i] == lines[i];
      if Claims(lines[n]) { assert exists i :: 0 <= i < |lines| && Claims(lines[i]); }
    }
  }

  // ----- the three layers

  lemma {:induction false} CleanChainsExactly(k: Kit, files: Files, paths: seq<string>)
    ensures ChainProblems(k, files, paths) == []
       <==> forall p :: p in paths && p in files ==> Verified(k.read, k.gaps, k.hash, files[p]).problems == []
    decreases paths
  {
    hide Verified;
    if paths != [] {
      CleanChainsExactly(k, files, paths[1..]);
      assert forall p :: p in paths <==> p == paths[0] || p in paths[1..];
      if paths[0] in files {
        var ps := Verified(k.read, k.gaps, k.hash, files[paths[0]]).problems;
        assert |Tagged(paths[0], ps)| == |ps|;
      }
    }
  }

  lemma {:induction false} AllSealedExactly(k: Kit, paths: seq<string>, closed: seq<string>)
    ensures StillOpen(k, paths, closed) == [] <==> forall p :: p in paths ==> Resolve(k.layout, p) in closed
    decreases paths
  {
    hide Resolve;
    if paths != [] {
      AllSealedExactly(k, paths[1..], closed);
      assert forall p :: p in paths <==> p == paths[0] || p in paths[1..];
    }
  }

  /** The live file, and every file an entry leads to. */
  ghost predicate Named(k: Kit, disk: Disk, path: string) {
    || path == Resolve(k.layout, AuditPath(k.layout))
    || exists i :: 0 <= i < |disk.manifest| && path == SegmentPath(k.layout, disk.manifest[i].path)
  }

  lemma NamedExactly(k: Kit, disk: Disk, path: string)
    ensures path in WalkPaths(k, disk) <==> Named(k, disk, path)
  {
    hide Resolve, SegmentPath;
    var all := SegmentPaths(k, disk.manifest);
    Intact.AddAllHolds([], all + [LiveAt(k)], path);
    if path in all {
      var i :| 0 <= i < |all| && all[i] == path;
      assert path == SegmentPath(k.layout, disk.manifest[i].path);
    }
    if i :| 0 <= i < |disk.manifest| && path == SegmentPath(k.layout, disk.manifest[i].path) { assert all[i] == path; }
  }

  /** Every named file that is there holds a chain: only records, but for a torn last line, each linked to the last. */
  ghost predicate AllChained(k: Kit, disk: Disk) {
    forall p :: p in disk.files && Named(k, disk, p)
      ==> Readable(k.read, Chunks(disk.files[p])) && Chained(k.hash, Events(k.read, disk.files[p]))
  }

  /** Every closed file found is one an entry leads to. */
  ghost predicate AllSealed(k: Kit, disk: Disk) {
    forall p :: p in Discovered(k, disk.files, disk.listing) ==> Resolve(k.layout, p) in SegmentPaths(k, disk.manifest)
  }

  ghost predicate AllSound(k: Kit, t: Trust, disk: Disk) {
    && disk.hasKey
    && (forall i :: 0 <= i < |disk.anchors| ==> LineSound(k, t, disk, disk.anchors[i]))
    && exists i :: 0 <= i < |disk.anchors| && Claims(disk.anchors[i])
  }

  lemma ChainsExactly(k: Kit, disk: Disk)
    ensures ChainProblems(k, disk.files, WalkPaths(k, disk)) == [] <==> AllChained(k, disk)
  {
    hide WalkPaths, Named, Verified, Chained, Readable, Events, Chunks;
    CleanChainsExactly(k, disk.files, WalkPaths(k, disk));
    forall p | p in disk.files
      ensures p in WalkPaths(k, disk) <==> Named(k, disk, p)
      ensures Verified(k.read, k.gaps, k.hash, disk.files[p]).problems == []
         <==> Readable(k.read, Chunks(disk.files[p])) && Chained(k.hash, Events(k.read, disk.files[p]))
    {
      NamedExactly(k, disk, p);
      NoProblems(k, disk.files[p]);
    }
  }

  lemma NoProblems(k: Kit, raw: string)
    ensures Verified(k.read, k.gaps, k.hash, raw).problems == [] <==> Readable(k.read, Chunks(raw)) && Chained(k.hash, Events(k.read, raw))
  {
    hide Chained, Readable, Chunks;
    VerifiedExactly(k.read, k.gaps, k.hash, raw);
  }

  lemma NoEntryProblems(k: Kit, disk: Disk)
    ensures ManifestProblems(k, disk.files, disk.manifest) == []
       <==> forall i :: 0 <= i < |disk.manifest| ==> EntrySound(k, disk.files, disk.manifest, i)
  {
    hide EntrySound, ManifestProblems;
    ManifestCleanExactly(k, disk.files, disk.manifest);
  }

  lemma AnchoredExactly(k: Kit, t: Trust, disk: Disk)
    ensures AnchorProblems(k, t, disk, LogRead(disk)) == [] && Tally(LogRead(disk), Confirmed) + Tally(LogRead(disk), Pending) > 0
       <==> AllSound(k, t, disk)
  {
    hide AnchorProblems, Tally, LineSound, Claims;
    CleanLogExactly(k, t, disk, LogRead(disk));
    TallyExactly(LogRead(disk));
  }

  /** On any disk the verdict is clean exactly when every named file holds a chain, every entry is sound, every closed
      file found is sealed, and the log is read, holds sound records only, and one of them reached a calendar. */
  lemma CleanExactly(k: Kit, t: Trust, disk: Disk)
    ensures Verdict(k, t, disk).ok
       <==> AllChained(k, disk) && (forall i :: 0 <= i < |disk.manifest| ==> EntrySound(k, disk.files, disk.manifest, i))
            && AllSealed(k, disk) && AllSound(k, t, disk)
  {
    hide ChainProblems, ManifestProblems, AnchorProblems, WalkPaths, SegmentPaths, Discovered, AllChained, AllSound, EntrySound, LogRead,
      Tally, Resolve;
    ChainsExactly(k, disk);
    NoEntryProblems(k, disk);
    AllSealedExactly(k, Discovered(k, disk.files, disk.listing), SegmentPaths(k, disk.manifest));
    AnchoredExactly(k, t, disk);
  }

  /** Under a clean verdict every record is sound. */
  lemma SoundRecord(k: Kit, t: Trust, disk: Disk, r: AnchorRecord)
    requires Verdict(k, t, disk).ok && Anchored(r) in disk.anchors
    ensures Sound(k, t, disk, r)
  {
    hide AllChained, EntrySound, AllSealed, Verdict, Sound;
    CleanExactly(k, t, disk);
    var i :| 0 <= i < |disk.anchors| && disk.anchors[i] == Anchored(r);
    assert LineSound(k, t, disk, disk.anchors[i]);
  }

  /** One that carries no error names bytes that attest to its digest. */
  lemma ProofStands(k: Kit, t: Trust, disk: Disk, r: AnchorRecord)
    requires Verdict(k, t, disk).ok && Anchored(r) in disk.anchors && !r.failed
    ensures HasBytes(disk, r) && Attested(t, disk, r)
  {
    hide Verdict, HasBytes, Rebuilt, CheckpointText;
    SoundRecord(k, t, disk, r);
  }

  /** So no verdict is clean without proof bytes on disk. */
  lemma NothingWithoutProofs(k: Kit, t: Trust, disk: Disk)
    ensures !Verdict(k, t, disk.(proofs := map[])).ok
  {
    hide AllChained, EntrySound, AllSealed, Verdict, Rebuilt, CheckpointText;
    CleanExactly(k, t, disk.(proofs := map[]));
  }

  // ----- the tails a checkpoint can have committed to

  /** A file a checkpoint over `segments` sealed ones can have been signed over: the live one, a closed one that was not
      sealed then, or one sealed later. */
  ghost predicate CanBeLive(k: Kit, disk: Disk, segments: nat, path: string)
    requires segments <= |disk.manifest|
  {
    || path == Resolve(k.layout, AuditPath(k.layout))
    || (exists p :: p in Discovered(k, disk.files, disk.listing) && path == Resolve(k.layout, p)
                    && !exists i :: 0 <= i < segments && path == SegmentPath(k.layout, disk.manifest[i].path))
    || exists i :: segments <= i < |disk.manifest| && path == SegmentPath(k.layout, disk.manifest[i].path)
  }

  /** The end of some beginning of a file. */
  ghost predicate EndsBeginning(k: Kit, disk: Disk, path: string, tail: LiveTail) {
    && path in disk.files
    && var es := Events(k.read, disk.files[path]);
       0 < tail.count <= |es| && tail.finalHash == es[tail.count - 1].integrity.hash
  }

  lemma {:induction false} OpenExactly(k: Kit, paths: seq<string>, closed: seq<string>, full: string)
    ensures full in StillOpen(k, paths, closed) <==> full !in closed && exists p :: p in paths && full == Resolve(k.layout, p)
    decreases paths
  {
    hide Resolve;
    if paths != [] {
      OpenExactly(k, paths[1..], closed, full);
      assert forall p :: p in paths <==> p == paths[0] || p in paths[1..];
    }
  }

  lemma PathsExactly(k: Kit, entries: seq<Entry>, path: string)
    ensures path in SegmentPaths(k, entries) <==> exists i :: 0 <= i < |entries| && path == SegmentPath(k.layout, entries[i].path)
  {
    hide SegmentPath;
    var all := SegmentPaths(k, entries);
    if i :| 0 <= i < |entries| && path == SegmentPath(k.layout, entries[i].path) { assert all[i] == path; }
  }

  lemma EligibleExactly(k: Kit, disk: Disk, segments: nat, path: string)
    requires segments <= |disk.manifest|
    ensures path in Eligible(k, disk, segments) <==> CanBeLive(k, disk, segments, path)
  {
    hide Resolve, SegmentPath, Discovered, SegmentPaths, StillOpen;
    var found, before, later := Discovered(k, disk.files, disk.listing), disk.manifest[..segments], disk.manifest[segments..];
    Intact.AddAllHolds([LiveAt(k)], StillOpen(k, found, SegmentPaths(k, before)) + SegmentPaths(k, later), path);
    OpenExactly(k, found, SegmentPaths(k, before), path);
    PathsExactly(k, before, path);
    PathsExactly(k, later, path);
    assert forall i :: 0 <= i < segments ==> before[i] == disk.manifest[i];
    if i :| 0 <= i < |later| && path == SegmentPath(k.layout, later[i].path) { assert disk.manifest[segments + i] == later[i]; }
    if i :| segments <= i < |disk.manifest| && path == SegmentPath(k.layout, disk.manifest[i].path) {
      assert later[i - segments] == disk.manifest[i];
    }
  }

  ghost predicate Has(cs: seq<Candidate>, tail: LiveTail) { exists c :: c in cs && c.tail == tail }

  lemma {:induction false} FilesOffer(k: Kit, disk: Disk, paths: seq<string>, tail: LiveTail)
    ensures Has(FileOffers(k, disk.files, paths), tail) <==> exists p :: p in paths && EndsBeginning(k, disk, p, tail)
    decreases paths
  {
    hide Events, Has, EndsBeginning, Prefixes;
    if paths == [] {
      NoneHas(tail);
    } else {
      FilesOffer(k, disk, paths[1..], tail);
      var own := if paths[0] in disk.files then Prefixes(Events(k.read, disk.files[paths[0]])) else [];
      OwnOffers(k, disk, paths[0], tail);
      HasEither(own, FileOffers(k, disk.files, paths[1..]), tail);
      assert forall p :: p in paths <==> p == paths[0] || p in paths[1..];
    }
  }

  lemma OwnOffers(k: Kit, disk: Disk, path: string, tail: LiveTail)
    ensures Has(if path in disk.files then Prefixes(Events(k.read, disk.files[path])) else [], tail) <==> EndsBeginning(k, disk, path, tail)
  {
    hide Events;
    if path in disk.files {
      var cs := Prefixes(Events(k.read, disk.files[path]));
      if EndsBeginning(k, disk, path, tail) { assert cs[tail.count - 1].tail == tail; }
    }
  }

  lemma HasEither(a: seq<Candidate>, b: seq<Candidate>, tail: LiveTail)
    ensures Has(a + b, tail) <==> Has(a, tail) || Has(b, tail)
  {
    if Has(a, tail) {
      var c :| c in a && c.tail == tail;
      assert c in a + b;
    }
    if Has(b, tail) {
      var c :| c in b && c.tail == tail;
      assert c in a + b;
    }
  }

  lemma {:induction false} OfferAllHas(out: seq<Candidate>, cs: seq<Candidate>, tail: LiveTail)
    ensures Has(OfferAll(out, cs), tail) <==> Has(out, tail) || Has(cs, tail)
    decreases cs
  {
    hide Has;
    if cs == [] {
      assert !Has([], tail) by { NoneHas(tail); }
    } else {
      OfferAllHas(Offer(out, cs[0]), cs[1..], tail);
      assert [cs[0]] + cs[1..] == cs;
      HasEither([cs[0]], cs[1..], tail);
      OfferHas(out, cs[0], tail);
    }
  }

  lemma NoneHas(tail: LiveTail)
    ensures !Has([], tail)
  {
  }

  lemma OfferHas(out: seq<Candidate>, c: Candidate, tail: LiveTail)
    ensures Has(Offer(out, c), tail) <==> Has(out, tail) || Has([c], tail)
  {
    HasEither(out, [c], tail);
    if Has([c], tail) && c.tail in Tails(out) {
      var d :| d in out && d.tail == c.tail;
      assert Has(out, tail);
    }
  }

  /** The tails tried for a checkpoint are exactly the ends of beginnings of files it can have been signed over, and the
      ends of segments sealed later as their entries state them. */
  lemma TailsExactly(k: Kit, disk: Disk, segments: nat, tail: LiveTail)
    requires segments <= |disk.manifest|
    ensures Has(Candidates(k, disk, segments), tail)
       <==> || (exists path :: CanBeLive(k, disk, segments, path) && EndsBeginning(k, disk, path, tail))
            || exists i :: segments <= i < |disk.manifest| && tail == LiveTail(disk.manifest[i].finalHash, disk.manifest[i].count)
  {
    hide Has, Eligible, CanBeLive, EndsBeginning, FileOffers;
    var paths, later := Eligible(k, disk, segments), disk.manifest[segments..];
    OfferAllHas([], Offers(k, disk, segments), tail);
    NoneHas(tail);
    HasEither(FileOffers(k, disk.files, paths), EntryOffers(later), tail);
    FilesOffer(k, disk, paths, tail);
    EntriesOffer(later, tail);
    if path :| path in paths && EndsBeginning(k, disk, path, tail) { EligibleExactly(k, disk, segments, path); }
    if path :| CanBeLive(k, disk, segments, path) && EndsBeginning(k, disk, path, tail) { EligibleExactly(k, disk, segments, path); }
    if i :| 0 <= i < |later| && tail == LiveTail(later[i].finalHash, later[i].count) { assert disk.manifest[segments + i] == later[i]; }
    if i :| segments <= i < |disk.manifest| && tail == LiveTail(disk.manifest[i].finalHash, disk.manifest[i].count) {
      assert later[i - segments] == disk.manifest[i];
    }
  }

  lemma EntriesOffer(entries: seq<Entry>, tail: LiveTail)
    ensures Has(EntryOffers(entries), tail) <==> exists i :: 0 <= i < |entries| && tail == LiveTail(entries[i].finalHash, entries[i].count)
  {
    var cs := EntryOffers(entries);
    if i :| 0 <= i < |entries| && tail == LiveTail(entries[i].finalHash, entries[i].count) { assert cs[i].tail == tail; }
  }

  // ----- what an anchor pass leaves

  /** The tail of a file: how many records, and the hash of the last. */
  function TailNow(k: Kit, raw: string): Option<LiveTail> {
    var es := Events(k.read, raw);
    if es == [] then None else Some(LiveTail(es[|es| - 1].integrity.hash, |es|))
  }

  /** The bytes a calendar answered with lead to an attestation. */
  predicate Answered(t: Trust, digest: string, s: Submission) {
    match s
    case Unreachable => false
    case Proof(bytes) => bytes != "" && match t.attests(bytes, digest) case None => false case Some(n) => n >= 1
  }

  /** The record a pass adds: a checkpoint signed now over so many segments, the hash the last of them ends with and the
      live tail; pending with its proof stored when a calendar answered, and marked failed when none did. */
  ghost predicate PassRecorded(k: Kit, t: Trust, before: Disk, after: Disk, tail: Option<LiveTail>, now: string, s: Submission) {
    && after.hasKey && |after.anchors| == |before.anchors| + 1 && before.anchors <= after.anchors
    && var line := after.anchors[|before.anchors|];
       && line.Anchored? && line.record.checkpoint.Some?
       && var r, n := line.record, |after.manifest|;
          var cp, head := r.checkpoint.value, if n == 0 then None else Some(after.manifest[n - 1].finalHash);
          && cp.chainIndex == n && cp.hash == k.hash(CompositeText(head, n, tail)) && cp.signedAt == now
          && cp.signature == t.sign(n, cp.hash, now) && cp.publicKey == t.publicKey
          && r.digest == k.hash(CheckpointText(cp)) && r.status == Pending && (r.failed <==> !Answered(t, r.digest, s))
          && (if r.failed then r.proofPath == None && after.proofs == before.proofs
              else r.proofPath == Some(r.digest + ".ots") && after.proofs == before.proofs[r.digest + ".ots" := s.bytes])
  }

  /** A pass touches no audit file. Without a live file it does nothing; otherwise it seals what is found closed, and adds one
      record unless there is nothing to sign. */
  lemma PassOutcome(k: Kit, t: Trust, disk: Disk, now: string, s: Submission)
    ensures var after, live := AnchorPass(k, t, disk, now, s), Resolve(k.layout, AuditPath(k.layout));
            && after.files == disk.files && after.listing == disk.listing
            && if live !in disk.files then after == disk
               else
                 && after.manifest == Adopted(k, disk.files, disk.manifest, Discovered(k, disk.files, disk.listing), now)
                 && var tail := TailNow(k, disk.files[live]);
                    if tail == None && after.manifest == [] then after == disk.(manifest := [])
                    else PassRecorded(k, t, disk, after, tail, now, s)
  {
    hide Adopted, Discovered, CheckpointText, CompositeText, Events, Resolve;
  }
}
