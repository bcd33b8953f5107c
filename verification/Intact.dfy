/** A clean verdict means the committed records are still there, on any disk whatever happened to it. */
module Intact {
  import opened Wrappers
  import opened Chain
  import opened Rotation
  import opened Anchor

  // ----- collections kept without repeats

  lemma {:induction false} AddAllHolds<T>(xs: seq<T>, ys: seq<T>, x: T)
    ensures x in AddAll(xs, ys) <==> x in xs || x in ys
    decreases ys
  {
    if ys != [] {
      AddAllHolds(Add(xs, ys[0]), ys[1..], x);
      assert x in ys <==> x == ys[0] || x in ys[1..];
    }
  }

  lemma {:induction false} OfferAllHolds(out: seq<Candidate>, cs: seq<Candidate>, c: Candidate)
    requires c in OfferAll(out, cs)
    ensures c in out || c in cs
    decreases cs
  {
    hide Tails;
    if cs != [] {
      OfferAllHolds(Offer(out, cs[0]), cs[1..], c);
    }
  }

  /** Dropping repeated offers loses no tail. */
  lemma {:induction false} OfferAllTails(out: seq<Candidate>, cs: seq<Candidate>)
    ensures Tails(OfferAll(out, cs)) == Tails(out) + Tails(cs)
    decreases cs
  {
    if cs != [] {
      OfferAllTails(Offer(out, cs[0]), cs[1..]);
      OfferTails(out, cs[0]);
      assert cs == [cs[0]] + cs[1..];
    }
  }

  lemma OfferTails(out: seq<Candidate>, c: Candidate)
    ensures Tails(Offer(out, c)) == Tails(out) + {c.tail}
  {
  }

  // ----- where a candidate comes from

  /** The record that ends the first `count` of a file's records. */
  predicate EndsPrefix(k: Kit, files: Files, path: string, tail: LiveTail) {
    path in files &&
    var es := Events(k.read, files[path]);
    0 < tail.count <= |es| && es[tail.count - 1].integrity.hash == tail.finalHash
  }

  lemma {:induction false} FromFile(k: Kit, files: Files, paths: seq<string>, c: Candidate) returns (path: string)
    requires c in FileOffers(k, files, paths)
    ensures path in paths && EndsPrefix(k, files, path, c.tail)
    ensures Events(k.read, files[path])[c.tail.count - 1].integrity.chainIndex == c.reach
  {
    hide Events;
    var own := if paths[0] in files then Prefixes(Events(k.read, files[paths[0]])) else [];
    assert c in own || c in FileOffers(k, files, paths[1..]);
    if c in own {
      path := paths[0];
      var i :| 0 <= i < |own| && own[i] == c;
    } else {
      path := FromFile(k, files, paths[1..], c);
    }
  }

  lemma {:induction false} StillOpenFrom(k: Kit, paths: seq<string>, closed: seq<string>, path: string)
    requires path in StillOpen(k, paths, closed)
    ensures path !in closed && exists p :: p in paths && Resolve(k.layout, p) == path
  {
    hide Resolve;
    var full := Resolve(k.layout, paths[0]);
    if path != full || full in closed { StillOpenFrom(k, paths[1..], closed, path); }
  }

  lemma {:induction false} StillOpenHolds(k: Kit, paths: seq<string>, closed: seq<string>, p: string)
    requires p in paths && Resolve(k.layout, p) !in closed
    ensures Resolve(k.layout, p) in StillOpen(k, paths, closed)
  {
    hide Resolve;
    if p != paths[0] { StillOpenHolds(k, paths[1..], closed, p); }
  }

  lemma SuffixWalked(k: Kit, disk: Disk, segments: nat, path: string)
    requires segments <= |disk.manifest| && path in SegmentPaths(k, disk.manifest[segments..])
    ensures path in WalkPaths(k, disk)
  {
    hide SegmentPath, LiveAt;
    var tail := SegmentPaths(k, disk.manifest[segments..]);
    var i :| 0 <= i < |tail| && tail[i] == path;
    var all := SegmentPaths(k, disk.manifest);
    assert all[segments + i] == path;
    AddAllHolds([], all + [LiveAt(k)], path);
  }

  /** With nothing unsealed, every file a live tail can be in is walked by the first layer. */
  lemma EligibleWalked(k: Kit, disk: Disk, segments: nat, path: string)
    requires segments <= |disk.manifest| && Unsealed(k, disk) == 0
    requires path in Eligible(k, disk, segments)
    ensures path in WalkPaths(k, disk)
  {
    hide SegmentPaths, LiveAt, Resolve;
    var found := Discovered(k, disk.files, disk.listing);
    var open, later := StillOpen(k, found, SegmentPaths(k, disk.manifest[..segments])), SegmentPaths(k, disk.manifest[segments..]);
    AddAllHolds([LiveAt(k)], open + later, path);
    AddAllHolds([], SegmentPaths(k, disk.manifest) + [LiveAt(k)], path);
    if path in later {
      SuffixWalked(k, disk, segments, path);
    } else if path in open {
      StillOpenFrom(k, found, SegmentPaths(k, disk.manifest[..segments]), path);
      if path !in SegmentPaths(k, disk.manifest) {
        var p :| p in found && Resolve(k.layout, p) == path;
        StillOpenHolds(k, found, SegmentPaths(k, disk.manifest), p);
        assert false;
      }
    }
  }

  /** Every candidate is backed by a walked file: the one it was read from, or the one its entry names. */
  lemma CandidateBacked(k: Kit, disk: Disk, segments: nat, c: Candidate) returns (path: string)
    requires segments <= |disk.manifest| && Unsealed(k, disk) == 0 && ManifestProblems(k, disk.files, disk.manifest) == []
    requires c in Candidates(k, disk, segments)
    ensures path in WalkPaths(k, disk) && EndsPrefix(k, disk.files, path, c.tail)
  {
    hide Eligible, Unsealed, ManifestProblems, EntrySound, SegmentPaths;
    OfferAllHolds([], Offers(k, disk, segments), c);
    var fromFiles, fromEntries := FileOffers(k, disk.files, Eligible(k, disk, segments)), EntryOffers(disk.manifest[segments..]);
    if c in fromFiles {
      path := FromFile(k, disk.files, Eligible(k, disk, segments), c);
      EligibleWalked(k, disk, segments, path);
    } else {
      var i :| 0 <= i < |fromEntries| && fromEntries[i] == c;
      path := EntryBacked(k, disk, segments + i);
      assert disk.manifest[segments..][i] == disk.manifest[segments + i];
    }
  }

  lemma EntryBacked(k: Kit, disk: Disk, j: nat) returns (path: string)
    requires j < |disk.manifest| && ManifestProblems(k, disk.files, disk.manifest) == []
    ensures path in WalkPaths(k, disk)
    ensures EndsPrefix(k, disk.files, path, LiveTail(disk.manifest[j].finalHash, disk.manifest[j].count))
  {
    hide ManifestProblems, EntrySound, SegmentPath, LiveAt, EndsPrefix;
    ManifestCleanExactly(k, disk.files, disk.manifest);
    SoundEnds(k, disk.files, disk.manifest, j);
    var all := SegmentPaths(k, disk.manifest);
    path := all[j];
    AddAllHolds([], all + [LiveAt(k)], path);
  }

  lemma SoundEnds(k: Kit, files: Files, entries: seq<Entry>, j: nat)
    requires j < |entries| && EntrySound(k, files, entries, j)
    ensures EndsPrefix(k, files, SegmentPath(k.layout, entries[j].path), LiveTail(entries[j].finalHash, entries[j].count))
  {
    hide EntryText, Events, SegmentPath;
  }

  // ----- the layers taken apart

  lemma {:induction false} WalkedChained(k: Kit, files: Files, paths: seq<string>, path: string)
    requires ChainProblems(k, files, paths) == [] && path in paths && path in files
    ensures Chained(k.hash, Events(k.read, files[path]))
  {
    hide Verified, Chained, Events;
    if path == paths[0] {
      var ps := Verified(k.read, k.gaps, k.hash, files[path]).problems;
      assert Tagged(path, ps) == [];
      VerifiedOk(k, files[path]);
    } else {
      WalkedChained(k, files, paths[1..], path);
    }
  }

  lemma VerifiedOk(k: Kit, raw: string)
    requires Verified(k.read, k.gaps, k.hash, raw).problems == []
    ensures Chained(k.hash, Events(k.read, raw))
  {
    VerifiedExactly(k.read, k.gaps, k.hash, raw);
  }

  lemma {:induction false} CleanLine(k: Kit, t: Trust, disk: Disk, lines: seq<AnchorLine>, line: AnchorLine)
    requires AnchorProblems(k, t, disk, lines) == [] && line in lines
    ensures LineAnchorProblems(k, t, disk, line) == []
    decreases lines
  {
    hide LineAnchorProblems;
    var n := |lines| - 1;
    if line != lines[n] { CleanLine(k, t, disk, lines[..n], line); }
  }

  /** Under a clean verdict every checkpoint of the log is vouched for, is what its record submitted, and
      reproduces from disk. */
  lemma CleanCheckpoint(k: Kit, t: Trust, disk: Disk, r: AnchorRecord)
    requires Verdict(k, t, disk).ok && Anchored(r) in disk.anchors
    ensures r.checkpoint.Some? && Vouched(t, r.checkpoint.value) && Reproduces(k, disk, r.checkpoint.value)
    ensures r.digest == k.hash(CheckpointText(r.checkpoint.value))
  {
    hide Reproduces, CheckpointText, Vouched, ChainProblems, ManifestProblems;
    CleanLine(k, t, disk, LogRead(disk), Anchored(r));
    assert CheckpointProblems(k, t, disk, r) == [];
  }

  // ----- the main result

  /** Texts the verdict and the signer hashed, as far as the argument needs them told apart. */
  ghost predicate Told(k: Kit, disk: Disk, segments: nat, texts: set<string>) {
    && segments <= |disk.manifest|
    && CollisionFree(k.hash, texts)
    && CompositeText(HeadAt(disk, segments), segments, None) in texts
    && (forall c | c in Candidates(k, disk, segments) :: CompositeText(HeadAt(disk, segments), segments, Some(c.tail)) in texts)
    && (forall p | p in disk.files :: Materials(Events(k.read, disk.files[p])) <= texts)
  }

  /** A reproducing checkpoint reproduces from the very head and tail it committed to. */
  lemma CommittedCandidate(k: Kit, disk: Disk, cp: Checkpoint, head: Option<string>, tail: LiveTail, texts: set<string>)
    returns (c: Candidate)
    requires Reproduces(k, disk, cp) && Told(k, disk, cp.chainIndex, texts)
    requires CompositeText(head, cp.chainIndex, Some(tail)) in texts
    requires cp.hash == Composite(k.hash, head, cp.chainIndex, Some(tail))
    ensures head == HeadAt(disk, cp.chainIndex)
    ensures c in Candidates(k, disk, cp.chainIndex) && c.tail == tail
  {
    hide CompositeText, Candidates, HeadAt, Materials;
    var n, now := cp.chainIndex, HeadAt(disk, cp.chainIndex);
    if cp.hash == Composite(k.hash, now, n, None) {
      CompositeInjective(head, n, Some(tail), now, n, None);
      assert false;
    } else {
      c :| c in Candidates(k, disk, n) && cp.hash == Composite(k.hash, now, n, Some(c.tail));
      CompositeInjective(head, n, Some(tail), now, n, Some(c.tail));
    }
  }

  /** Some walked file still begins with these records. */
  ghost predicate StillBeginsWith(k: Kit, disk: Disk, es: seq<Event>) {
    exists path :: BeginsWith(k, disk, path, es)
  }

  ghost predicate BeginsWith(k: Kit, disk: Disk, path: string, es: seq<Event>) {
    path in WalkPaths(k, disk) && path in disk.files && es <= Events(k.read, disk.files[path])
  }

  /** A checkpoint was signed over a live file holding the chained records `es`. If the verdict on any later
      disk that still lists it is clean, some walked file begins with exactly those records, and the manifest
      head it committed still ends the same sealed segment. */
  lemma CleanVerdictImpliesIntact(k: Kit, t: Trust, disk: Disk, r: AnchorRecord, head: Option<string>, es: seq<Event>,
                                  texts: set<string>)
    requires Verdict(k, t, disk).ok && Anchored(r) in disk.anchors && r.checkpoint.Some?
    requires es != [] && Chained(k.hash, es)
    requires r.checkpoint.value.hash
          == Composite(k.hash, head, r.checkpoint.value.chainIndex, Some(LiveTail(es[|es| - 1].integrity.hash, |es|)))
    requires r.checkpoint.value.chainIndex <= |disk.manifest| ==> Told(k, disk, r.checkpoint.value.chainIndex, texts)
    requires Materials(es) <= texts
    requires CompositeText(head, r.checkpoint.value.chainIndex, Some(LiveTail(es[|es| - 1].integrity.hash, |es|))) in texts
    ensures StillBeginsWith(k, disk, es)
    ensures r.checkpoint.value.chainIndex <= |disk.manifest| && head == HeadAt(disk, r.checkpoint.value.chainIndex)
  {
    hide CompositeText, Candidates, HeadAt, Chained, Events, WalkPaths, Materials, ManifestProblems, AnchorProblems, LogRead, Tally,
      CheckpointText;
    var cp := r.checkpoint.value;
    CleanCheckpoint(k, t, disk, r);
    var tail := LiveTail(es[|es| - 1].integrity.hash, |es|);
    var c := CommittedCandidate(k, disk, cp, head, tail, texts);
    var path := CandidateBacked(k, disk, cp.chainIndex, c);
    WalkedChained(k, disk.files, WalkPaths(k, disk), path);
    SamePrefix(k, disk, path, es, texts);
    assert BeginsWith(k, disk, path, es);
  }

  lemma SamePrefix(k: Kit, disk: Disk, path: string, es: seq<Event>, texts: set<string>)
    requires es != [] && Chained(k.hash, es) && path in disk.files && Chained(k.hash, Events(k.read, disk.files[path]))
    requires EndsPrefix(k, disk.files, path, LiveTail(es[|es| - 1].integrity.hash, |es|))
    requires CollisionFree(k.hash, texts) && Materials(es) <= texts && Materials(Events(k.read, disk.files[path])) <= texts
    ensures es <= Events(k.read, disk.files[path])
  {
    hide Events, Chained;
    var found := Events(k.read, disk.files[path]);
    assert es[..|es|] == es && found[..|found|] == found;
    MaterialsPrefix(found, |es|, |found|);
    SharedHashSharedPrefix(k.hash, es, found, |es|, texts);
  }
}
