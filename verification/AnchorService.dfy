/** The operations of src/audit/anchor-service.ts, proved against the functions of module Anchor. */
module AnchorService {
  import opened Wrappers
  import opened Chain
  import opened Rotation
  import opened Anchor

  // ----- anchorReach

  function Max(a: int, b: int): int { if a < b then b else a }

  /** The first candidate that reproduces the composite. */
  function FirstMatch(hash: Hash, head: Option<string>, segments: nat, composite: string, cs: seq<Candidate>): Option<Candidate> {
    if cs == [] then None
    else if Composite(hash, head, segments, Some(cs[0].tail)) == composite then Some(cs[0])
    else FirstMatch(hash, head, segments, composite, cs[1..])
  }

  /** coveredThroughIndex of one checkpoint. */
  function CoveredThrough(k: Kit, disk: Disk, cp: Checkpoint): Option<int> {
    if cp.chainIndex > |disk.manifest| then None
    else
      var n, head := cp.chainIndex, HeadAt(disk, cp.chainIndex);
      var sealedThrough := if n == 0 then None else Some(disk.manifest[n - 1].lastIndex);
      if Composite(k.hash, head, n, None) == cp.hash then sealedThrough
      else
        match FirstMatch(k.hash, head, n, cp.hash, Candidates(k, disk, n))
        case None => None
        case Some(c) => if n == 0 then Some(c.reach) else Some(Max(sealedThrough.value, c.reach))
  }

  lemma {:induction false} FirstMatchFinds(hash: Hash, head: Option<string>, segments: nat, composite: string, cs: seq<Candidate>)
    ensures var m := FirstMatch(hash, head, segments, composite, cs);
            match m
            case Some(c) => c in cs && Composite(hash, head, segments, Some(c.tail)) == composite
            case None => forall c | c in cs :: Composite(hash, head, segments, Some(c.tail)) != composite
  {
    hide Composite;
    if cs != [] {
      FirstMatchFinds(hash, head, segments, composite, cs[1..]);
      assert cs == [cs[0]] + cs[1..];
    }
  }

  /** On any disk the reach is unknown exactly when the verdict reports a live-tail mismatch, or the
      checkpoint committed to nothing at all. */
  lemma ReachUnknownExactly(k: Kit, t: Trust, disk: Disk, r: AnchorRecord)
    requires r.checkpoint.Some?
    ensures var cp := r.checkpoint.value;
            CoveredThrough(k, disk, cp) == None
            <==> LiveTailMismatch(cp.chainIndex) in CheckpointProblems(k, t, disk, r)
                 || (cp.chainIndex == 0 && cp.hash == Composite(k.hash, None, 0, None))
  {
    hide Composite, Candidates, CheckpointText, Vouched;
    var cp := r.checkpoint.value;
    if cp.chainIndex <= |disk.manifest| {
      FirstMatchFinds(k.hash, HeadAt(disk, cp.chainIndex), cp.chainIndex, cp.hash, Candidates(k, disk, cp.chainIndex));
    }
  }

  /** The first candidate whose composite is the one signed. */
  ghost predicate FirstReproducing(k: Kit, disk: Disk, cp: Checkpoint, i: nat)
    requires cp.chainIndex <= |disk.manifest|
  {
    var cs, head := Candidates(k, disk, cp.chainIndex), HeadAt(disk, cp.chainIndex);
    && i < |cs| && Composite(k.hash, head, cp.chainIndex, Some(cs[i].tail)) == cp.hash
    && forall j :: 0 <= j < i ==> Composite(k.hash, head, cp.chainIndex, Some(cs[j].tail)) != cp.hash
  }

  lemma {:induction false} FirstMatchIs(hash: Hash, head: Option<string>, segments: nat, composite: string, cs: seq<Candidate>, i: nat)
    requires i < |cs| && Composite(hash, head, segments, Some(cs[i].tail)) == composite
    requires forall j :: 0 <= j < i ==> Composite(hash, head, segments, Some(cs[j].tail)) != composite
    ensures FirstMatch(hash, head, segments, composite, cs) == Some(cs[i])
    decreases i
  {
    hide Composite;
    if i > 0 {
      assert forall j :: 0 <= j < i - 1 ==> cs[1..][j] == cs[j + 1];
      FirstMatchIs(hash, head, segments, composite, cs[1..], i - 1);
    }
  }

  /** How far a checkpoint reaches. Over an empty tail, through the newest segment sealed when it was signed. Otherwise at
      least through that segment and through the first tail that reproduces, and no further than one of the two. */
  lemma ReachCovers(k: Kit, disk: Disk, cp: Checkpoint, i: nat)
    requires cp.chainIndex <= |disk.manifest|
    ensures var n, reach := cp.chainIndex, CoveredThrough(k, disk, cp);
            && (cp.hash == Composite(k.hash, HeadAt(disk, n), n, None) ==>
                  reach == if n == 0 then None else Some(disk.manifest[n - 1].lastIndex))
            && (cp.hash != Composite(k.hash, HeadAt(disk, n), n, None) && FirstReproducing(k, disk, cp, i) ==>
                  var tail := Candidates(k, disk, n)[i].reach;
                  && reach.Some? && reach.value >= tail && (n > 0 ==> reach.value >= disk.manifest[n - 1].lastIndex)
                  && (reach.value == tail || (n > 0 && reach.value == disk.manifest[n - 1].lastIndex)))
  {
    hide Composite, Candidates;
    if FirstReproducing(k, disk, cp, i) {
      FirstMatchIs(k.hash, HeadAt(disk, cp.chainIndex), cp.chainIndex, cp.hash, Candidates(k, disk, cp.chainIndex), i);
    }
  }

  // ----- the service

  method AddEach(xs: seq<string>, ys: seq<string>) returns (r: seq<string>)
    ensures r == AddAll(xs, ys)
  {
    r := xs;
    assert ys[0..] == ys;
    for i := 0 to |ys|
      invariant AddAll(r, ys[i..]) == AddAll(xs, ys)
    {
      assert ys[i..][1..] == ys[i + 1..] && ys[i..][0] == ys[i];
      if ys[i] !in r { r := r + [ys[i]]; }
    }
  }

  method FilterOpen(k: Kit, paths: seq<string>, closed: seq<string>) returns (open: seq<string>)
    ensures open == StillOpen(k, paths, closed)
  {
    hide Resolve, StillOpen;
    open := [];
    assert paths[0..] == paths;
    for i := 0 to |paths|
      invariant open + StillOpen(k, paths[i..], closed) == StillOpen(k, paths, closed)
    {
      OpenStep(k, paths, closed, i);
      var full := Resolve(k.layout, paths[i]);
      if full !in closed { open := open + [full]; }
    }
    assert paths[|paths|..] == [];
    NoneOpen(k, closed);
  }

  lemma NoneOpen(k: Kit, closed: seq<string>)
    ensures StillOpen(k, [], closed) == []
  {
  }

  lemma OpenStep(k: Kit, paths: seq<string>, closed: seq<string>, i: nat)
    requires i < |paths|
    ensures StillOpen(k, paths[i..], closed)
         == (if Resolve(k.layout, paths[i]) in closed then [] else [Resolve(k.layout, paths[i])]) + StillOpen(k, paths[i + 1..], closed)
  {
    hide Resolve;
    assert paths[i..][1..] == paths[i + 1..] && paths[i..][0] == paths[i];
  }

  /** The prefixes one eligible file offers, skipping lines that are not records. */
  method OfferFile(k: Kit, raw: string, out: seq<Candidate>, seen: set<LiveTail>)
    returns (kept: seq<Candidate>, marked: set<LiveTail>)
    requires seen == Tails(out)
    ensures kept == OfferAll(out, Prefixes(Events(k.read, raw))) && marked == Tails(kept)
  {
    hide Chunks, Tails;
    kept, marked := out, seen;
    var lines, count := Chunks(raw), 0;
    assert lines[..0] == [] && Prefixes([]) == [];
    for i := 0 to |lines|
      invariant count == |Records(k.read, lines[..i])| && marked == Tails(kept)
      invariant kept == OfferAll(out, Prefixes(Records(k.read, lines[..i])))
    {
      assert lines[..i + 1] == lines[..i] + [lines[i]];
      RecordsAppend(k.read, lines[..i], [lines[i]]);
      match k.read(lines[i].text) {
        case Record(e) =>
          var es := Records(k.read, lines[..i]);
          assert Records(k.read, [lines[i]]) == [e];
          count := count + 1;
          var c := Candidate(LiveTail(e.integrity.hash, count), e.integrity.chainIndex);
          assert Prefixes(es + [e]) == Prefixes(es) + [c];
          OfferAllOne(out, Prefixes(es), c);
          OfferTail(kept, c);
          if c.tail !in marked { kept, marked := kept + [c], marked + {c.tail}; }
        case _ =>
          assert Records(k.read, [lines[i]]) == [];
          assert Records(k.read, lines[..i + 1]) == Records(k.read, lines[..i]);
      }
    }
    assert lines[..|lines|] == lines;
  }

  lemma {:induction false} OfferAllOne(out: seq<Candidate>, cs: seq<Candidate>, c: Candidate)
    ensures OfferAll(out, cs + [c]) == Offer(OfferAll(out, cs), c)
    decreases cs
  {
    hide Offer;
    if cs == [] {
      assert cs + [c] == [c] && [c][1..] == [];
    } else {
      assert (cs + [c])[1..] == cs[1..] + [c];
      OfferAllOne(Offer(out, cs[0]), cs[1..], c);
    }
  }

  lemma OfferTail(out: seq<Candidate>, c: Candidate)
    ensures Tails(out + [c]) == Tails(out) + {c.tail}
  {
  }

  lemma {:induction false} OfferAllConcat(out: seq<Candidate>, a: seq<Candidate>, b: seq<Candidate>)
    ensures OfferAll(out, a + b) == OfferAll(OfferAll(out, a), b)
    decreases a
  {
    hide Offer;
    if a == [] {
      assert a + b == b;
    } else {
      assert (a + b)[1..] == a[1..] + b;
      OfferAllConcat(Offer(out, a[0]), a[1..], b);
    }
  }

  /** The evidence directory and the code that keeps and judges it. */
  class Service {
    const k: Kit
    const t: Trust
    const manifest: Manifest
    var files: Files
    var listing: seq<string>
    var anchors: seq<AnchorLine>
    var hasKey: bool
    var proofs: map<string, string>

    constructor (k: Kit, t: Trust)
      ensures this.k == k && this.t == t && fresh(manifest)
      ensures OnDisk() == Disk(map[], [], [], [], false, map[])
    {
      this.k, this.t := k, t;
      manifest := new Manifest();
      files, listing, anchors, hasKey, proofs := map[], [], [], false, map[];
    }

    function OnDisk(): Disk
      reads this, manifest
    {
      Disk(files, listing, manifest.entries, anchors, hasKey, proofs)
    }

    /** runAnchorPass. */
    method RunAnchorPass(now: string, s: Submission) returns (anchored: bool, covered: int, segments: nat, liveRecords: nat)
      modifies this`anchors, this`hasKey, this`proofs, manifest
      ensures OnDisk() == AnchorPass(k, t, old(OnDisk()), now, s)
      ensures anchored <==> |anchors| == old(|anchors|) + 1
      ensures anchored ==> segments == |manifest.entries| && covered == RecordTotal(manifest.entries) + liveRecords
      ensures anchored ==> liveRecords == (match ShapeAt(k, files, LiveAt(k)) case None => 0 case Some(x) => x.count)
    {
      hide Adopted, Discovered, CheckpointText, Composite, Events, ManifestProblems, EntryText;
      anchored, covered, segments, liveRecords := false, 0, 0, 0;
      var liveAt := LiveAt(k);
      if liveAt !in files { return; }
      var closed := DiscoverClosedSegments(k, files, listing);
      manifest.AdoptExistingSegments(k, files, closed, now);
      var m := VerifyManifest(k, files, manifest.entries);
      var live := SummarizeSegment(k.read, files[liveAt]);
      if live.None? && m.head.None? { return; }
      var composite := Composite(k.hash, m.head, m.segments, TailOf(live));
      var cp := SignedCheckpoint(t, m.segments, composite, now);
      hasKey := true;
      var digest := k.hash(CheckpointText(cp));
      if Usable(t, digest, s) {
        proofs := proofs[ProofName(digest) := s.bytes];
        anchors := anchors + [Anchored(AnchorRecord(digest, Some(cp), false, Pending, Some(ProofName(digest))))];
      } else {
        anchors := anchors + [Anchored(AnchorRecord(digest, Some(cp), true, Pending, None))];
      }
      liveRecords := match live case None => 0 case Some(x) => x.count;
      return true, m.records + liveRecords, m.segments, liveRecords;
    }

    /** liveTailCandidates. */
    method LiveTailCandidates(segments: nat) returns (out: seq<Candidate>)
      requires segments <= |manifest.entries|
      ensures out == Candidates(k, OnDisk(), segments)
    {
      hide Prefixes, StillOpen, Discovered, SegmentPaths, EntryOffers, Events, Tails, Offer;
      var entries := manifest.entries;
      var found := DiscoverClosedSegments(k, files, listing);
      var open := FilterOpen(k, found, SegmentPaths(k, entries[..segments]));
      var eligible := AddEach([LiveAt(k)], open + SegmentPaths(k, entries[segments..]));
      out := [];
      var seen: set<LiveTail> := {};
      assert eligible[0..] == eligible && Tails([]) == {} by { NoTails(); }
      for i := 0 to |eligible|
        invariant seen == Tails(out)
        invariant OfferAll(out, FileOffers(k, files, eligible[i..])) == OfferAll([], FileOffers(k, files, eligible))
      {
        assert eligible[i..][1..] == eligible[i + 1..] && eligible[i..][0] == eligible[i];
        if eligible[i] in files {
          OfferAllConcat(out, Prefixes(Events(k.read, files[eligible[i]])), FileOffers(k, files, eligible[i + 1..]));
          out, seen := OfferFile(k, files[eligible[i]], out, seen);
        } else {
          assert FileOffers(k, files, eligible[i..]) == FileOffers(k, files, eligible[i + 1..]);
        }
      }
      OfferAllConcat([], FileOffers(k, files, eligible), EntryOffers(entries[segments..]));
      out := OfferEntries(EntryOffers(entries[segments..]), out, seen);
    }

    method OfferEntries(offers: seq<Candidate>, start: seq<Candidate>, marked: set<LiveTail>) returns (out: seq<Candidate>)
      requires marked == Tails(start)
      ensures out == OfferAll(start, offers)
    {
      hide Tails;
      out := start;
      var seen := marked;
      assert offers[0..] == offers;
      for i := 0 to |offers|
        invariant seen == Tails(out)
        invariant OfferAll(out, offers[i..]) == OfferAll(start, offers)
      {
        assert offers[i..][1..] == offers[i + 1..] && offers[i..][0] == offers[i];
        OfferTail(out, offers[i]);
        if offers[i].tail !in seen { out, seen := out + [offers[i]], seen + {offers[i].tail}; }
      }
    }

    /** The first layer: walk every file the manifest names and the live one. */
    method ChainedLayer() returns (problems: seq<(string, Problem)>)
      ensures problems == ChainProblems(k, files, WalkPaths(k, OnDisk()))
    {
      hide Verified, LiveAt, SegmentPaths, Tagged, AddAll;
      var paths := AddEach([], SegmentPaths(k, manifest.entries) + [LiveAt(k)]);
      assert paths == WalkPaths(k, OnDisk());
      problems := [];
      assert paths[0..] == paths;
      for i := 0 to |paths|
        invariant problems + ChainProblems(k, files, paths[i..]) == ChainProblems(k, files, paths)
      {
        assert paths[i..][1..] == paths[i + 1..] && paths[i..][0] == paths[i];
        if paths[i] in files {
          var v := VerifyChainFile(k.read, k.gaps, k.hash, files[paths[i]]);
          problems := problems + Tagged(paths[i], v.problems);
        }
      }
    }

    /** The composites a checkpoint over `segments` sealed files can have signed, from what is on disk now. */
    method CompositesFor(segments: nat) returns (composites: set<string>)
      requires segments <= |manifest.entries|
      ensures composites == CompositeSet(k, OnDisk(), segments)
    {
      hide Candidates, Composite;
      var head := if segments == 0 then None else Some(manifest.entries[segments - 1].finalHash);
      assert head == HeadAt(OnDisk(), segments);
      composites := {Composite(k.hash, head, segments, None)};
      var cs := LiveTailCandidates(segments);
      ghost var start := composites;
      for i := 0 to |cs|
        invariant composites == start + set c | c in cs[..i] :: Composite(k.hash, head, segments, Some(c.tail))
      {
        assert cs[..i + 1] == cs[..i] + [cs[i]];
        composites := composites + {Composite(k.hash, head, segments, Some(cs[i].tail))};
      }
      assert cs[..|cs|] == cs;
    }

    /** The third layer. Composites are built once per distinct segment count. */
    method AnchoredLayer(log: seq<AnchorLine>) returns (problems: seq<AnchorProblem>, pending: nat, confirmed: nat)
      ensures problems == AnchorProblems(k, t, OnDisk(), log)
      ensures pending == Tally(log, Pending) && confirmed == Tally(log, Confirmed)
    {
      hide LineAnchorProblems, CompositeSet;
      problems, pending, confirmed := [], 0, 0;
      var cache: map<nat, set<string>> := map[];
      assert log[..0] == [];
      for i := 0 to |log|
        invariant problems == AnchorProblems(k, t, OnDisk(), log[..i])
        invariant pending == Tally(log[..i], Pending) && confirmed == Tally(log[..i], Confirmed)
        invariant forall n | n in cache :: n <= |manifest.entries| && cache[n] == CompositeSet(k, OnDisk(), n)
      {
        assert log[..i + 1][..i] == log[..i];
        var found: seq<AnchorProblem>;
        found, cache := CheckLine(log[i], cache);
        problems := problems + found;
        if log[i].Anchored? && !log[i].record.failed {
          if log[i].record.status == Confirmed { confirmed := confirmed + 1; }
          if log[i].record.status == Pending { pending := pending + 1; }
        }
      }
      assert log[..|log|] == log;
    }

    /** One line of the log; `cache` holds the composites of the segment counts met so far. */
    method CheckLine(line: AnchorLine, cache: map<nat, set<string>>) returns (problems: seq<AnchorProblem>, next: map<nat, set<string>>)
      requires forall n | n in cache :: n <= |manifest.entries| && cache[n] == CompositeSet(k, OnDisk(), n)
      ensures problems == LineAnchorProblems(k, t, OnDisk(), line)
      ensures forall n | n in next :: n <= |manifest.entries| && next[n] == CompositeSet(k, OnDisk(), n)
    {
      hide CompositeSet, CheckpointProblems, ProofProblems;
      next := cache;
      match line {
        case Unparseable => problems := [BadLine];
        case Anchored(r) =>
          if r.checkpoint.Some? && r.checkpoint.value.chainIndex <= |manifest.entries| && r.checkpoint.value.chainIndex !in next {
            var composites := CompositesFor(r.checkpoint.value.chainIndex);
            next := next[r.checkpoint.value.chainIndex := composites];
          }
          problems := CheckRecord(r, next);
      }
    }

    method CheckRecord(r: AnchorRecord, cache: map<nat, set<string>>) returns (problems: seq<AnchorProblem>)
      requires forall n | n in cache :: n <= |manifest.entries| && cache[n] == CompositeSet(k, OnDisk(), n)
      requires r.checkpoint.Some? && r.checkpoint.value.chainIndex <= |manifest.entries| ==> r.checkpoint.value.chainIndex in cache
      ensures problems == CheckpointProblems(k, t, OnDisk(), r) + ProofProblems(t, OnDisk(), r)
    {
      hide CompositeSet, CheckpointText, Vouched;
      problems := [];
      match r.checkpoint {
        case None => problems := [NoCheckpoint];
        case Some(cp) =>
          if !Vouched(t, cp) { problems := problems + [BadSignature(cp.chainIndex)]; }
          var submitted := k.hash(CheckpointText(cp));
          if r.digest != submitted { problems := problems + [DigestMismatch(cp.chainIndex)]; }
          if cp.chainIndex > |manifest.entries| {
            problems := problems + [LiveTailMismatch(cp.chainIndex)];
          } else if cp.hash !in cache[cp.chainIndex] {
            problems := problems + [LiveTailMismatch(cp.chainIndex)];
          }
      }
      assert problems == CheckpointProblems(k, t, OnDisk(), r);
      if r.failed { return; }
      if r.proofPath.None? || r.proofPath.value == "" || r.proofPath.value !in proofs || proofs[r.proofPath.value] == "" {
        problems := problems + [ProofMissing];
        return;
      }
      match t.attests(proofs[r.proofPath.value], r.digest) {
        case None => problems := problems + [ProofParseError];
        case Some(n) => if n == 0 { problems := problems + [ProofParseError]; }
      }
    }

    /** runVerify. */
    method RunVerify() returns (report: Report)
      ensures report == Verdict(k, t, OnDisk())
    {
      hide ChainProblems, ManifestProblems, AnchorProblems, Tally, StillOpen, Discovered, WalkPaths, SegmentPaths, RecordTotal, Head;
      var chained := ChainedLayer();
      var m := VerifyManifest(k, files, manifest.entries);
      var found := DiscoverClosedSegments(k, files, listing);
      var unsealed := FilterOpen(k, found, SegmentPaths(k, manifest.entries));
      var problems: seq<AnchorProblem>, pending, confirmed := [], 0, 0;
      if hasKey {
        problems, pending, confirmed := AnchoredLayer(anchors);
      } else {
        NothingAnchored(k, t, OnDisk());
      }
      return Report(chained == [] && m.ok && |unsealed| == 0 && problems == [] && confirmed + pending > 0,
                    chained, m.problems, |unsealed|, problems, pending, confirmed);
    }

    /** anchorReach, for one checkpoint. */
    method AnchorReach(cp: Checkpoint) returns (coveredThrough: Option<int>)
      ensures coveredThrough == CoveredThrough(k, OnDisk(), cp)
    {
      hide Candidates, Composite;
      var n := cp.chainIndex;
      if n > |manifest.entries| { return None; }
      var head := if n == 0 then None else Some(manifest.entries[n - 1].finalHash);
      assert head == HeadAt(OnDisk(), n);
      var sealedThrough := if n == 0 then None else Some(manifest.entries[n - 1].lastIndex);
      if Composite(k.hash, head, n, None) == cp.hash { return sealedThrough; }
      var cs := LiveTailCandidates(n);
      assert cs[0..] == cs;
      for i := 0 to |cs|
        invariant FirstMatch(k.hash, head, n, cp.hash, cs) == FirstMatch(k.hash, head, n, cp.hash, cs[i..])
      {
        assert cs[i..][1..] == cs[i + 1..] && cs[i..][0] == cs[i];
        if Composite(k.hash, head, n, Some(cs[i].tail)) == cp.hash {
          return if n == 0 then Some(cs[i].reach) else Some(Max(sealedThrough.value, cs[i].reach));
        }
      }
      return None;
    }
  }

  lemma NoTails()
    ensures Tails([]) == {}
  {
  }

  lemma NothingAnchored(k: Kit, t: Trust, disk: Disk)
    ensures AnchorProblems(k, t, disk, []) == [] && Tally([], Pending) == 0 && Tally([], Confirmed) == 0
  {
  }
}
