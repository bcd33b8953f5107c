/** What the Go verifier's live-tail check (verifier/livetail.go) vouches for when it passes. */
module IndependentTail {
  import opened Wrappers
  import opened Chain
  import opened Rotation
  import opened Anchor
  import opened Intact
  import opened IndependentVerifier

  /** Everything searched is a digest in plain text. */
  predicate PlainSources(s: Sources) {
    && (forall i | 0 <= i < |s.heads| :: Plain(s.heads[i]))
    && (forall f | 0 <= f < |s.files| :: PlainAll(s.files[f]))
    && (forall e | 0 <= e < |s.entries| :: Plain(s.entries[e].finalHash))
  }

  predicate PlainAll(hashes: seq<string>) { forall c | 0 <= c < |hashes| :: Plain(hashes[c]) }

  /** A tail the check tries: the end of some prefix of a file, or an entry's own. */
  ghost predicate Tried(s: Sources, tail: LiveTail) {
    || (exists f, c :: 0 <= f < |s.files| && 0 <= c < |s.files[f]| && tail == LiveTail(s.files[f][c], c + 1))
    || tail in s.entries
  }

  /** The live file, the closed ones found, and those entries lead to. */
  ghost predicate Searched(k: Kit, disk: Disk, path: string) {
    || path == LiveAt(k)
    || (exists p :: p in Discovered(k, disk.files, disk.listing) && path == Resolve(k.layout, p))
    || path in SegmentPaths(k, disk.manifest)
  }

  /** The check hashes the very text the signer does, for the head the count names and every tail it tries. */
  lemma ReproducedFrom(k: Kit, disk: Disk, cp: Checkpoint) returns (tail: Option<LiveTail>)
    requires Reproduced(k.hash, SourcesOf(k, disk), cp) && PlainSources(SourcesOf(k, disk))
    ensures cp.chainIndex <= |disk.manifest| && cp.hash == Composite(k.hash, HeadAt(disk, cp.chainIndex), cp.chainIndex, tail)
    ensures tail.Some? ==> Tried(SourcesOf(k, disk), tail.value)
  {
    hide CompositeBytes, CompositeText, Plain, HeadField, Discovered, FileHashes;
    var s, n := SourcesOf(k, disk), cp.chainIndex;
    var head := if n == 0 then None else Some(s.heads[n - 1]);
    assert head == HeadAt(disk, n);
    var field := HeadField(head);
    if k.hash(CompositeBytes(field, n, None)) == cp.hash {
      tail := None;
    } else if f :| 0 <= f < |s.files| && InFile(k.hash, field, n, cp.hash, s.files[f]) {
      var c :| 0 <= c < |s.files[f]| && k.hash(CompositeBytes(field, n, Some(LiveTail(s.files[f][c], c + 1)))) == cp.hash;
      assert PlainAll(s.files[f]);
      tail := Some(LiveTail(s.files[f][c], c + 1));
    } else {
      var e :| 0 <= e < |s.entries| && k.hash(CompositeBytes(field, n, Some(s.entries[e]))) == cp.hash;
      tail := Some(s.entries[e]);
    }
    SameComposite(head, n, tail);
  }

  /** Where entries are sound, a tail the check tries ends a prefix of a file it searched. */
  lemma TriedBacked(k: Kit, disk: Disk, tail: LiveTail) returns (path: string)
    requires Tried(SourcesOf(k, disk), tail) && ManifestProblems(k, disk.files, disk.manifest) == []
    ensures Searched(k, disk, path) && path in disk.files && EndsPrefix(k, disk.files, path, tail)
  {
    hide Events, ManifestProblems, Discovered, Resolve, SegmentPath, EntrySound;
    var s, found := SourcesOf(k, disk), Discovered(k, disk.files, disk.listing);
    if f, c :| 0 <= f < |s.files| && 0 <= c < |s.files[f]| && tail == LiveTail(s.files[f][c], c + 1) {
      path := if f == 0 then LiveAt(k) else Resolve(k.layout, found[f - 1]);
      assert s.files[f] == FileHashes(k, disk.files, path);
      if f > 0 { assert found[f - 1] in found; }
      assert Searched(k, disk, path);
    } else {
      var e :| 0 <= e < |s.entries| && s.entries[e] == tail;
      ManifestCleanExactly(k, disk.files, disk.manifest);
      SoundEnds(k, disk.files, disk.manifest, e);
      path := SegmentPath(k.layout, disk.manifest[e].path);
      assert SegmentPaths(k, disk.manifest)[e] == path;
      EndsInFile(k, disk.files, path, tail);
    }
  }

  lemma EndsInFile(k: Kit, files: Files, path: string, tail: LiveTail)
    requires EndsPrefix(k, files, path, tail)
    ensures path in files
  {
  }

  /** Texts the check and the signer hashed, as far as they must be told apart. */
  ghost predicate ToldApart(k: Kit, disk: Disk, segments: nat, texts: set<string>) {
    && segments <= |disk.manifest| && CollisionFree(k.hash, texts)
    && CompositeText(HeadAt(disk, segments), segments, None) in texts
    && (forall tail | Tried(SourcesOf(k, disk), tail) :: CompositeText(HeadAt(disk, segments), segments, Some(tail)) in texts)
    && (forall p | p in disk.files :: Materials(Events(k.read, disk.files[p])) <= texts)
  }

  /** A checkpoint was signed over a live file holding the chained records `es`. If the check passes it on a disk whose
      entries are sound and whose searched files chain, some searched file begins with exactly those records, and the head
      committed to is the one its count names. */
  lemma PassedImpliesIntact(k: Kit, disk: Disk, cp: Checkpoint, head: Option<string>, es: seq<Event>, texts: set<string>) returns (path: string)
    requires Reproduced(k.hash, SourcesOf(k, disk), cp) && PlainSources(SourcesOf(k, disk))
    requires ManifestProblems(k, disk.files, disk.manifest) == []
    requires forall p :: p in disk.files && Searched(k, disk, p) ==> Chained(k.hash, Events(k.read, disk.files[p]))
    requires es != [] && Chained(k.hash, es)
    requires cp.hash == Composite(k.hash, head, cp.chainIndex, Some(LiveTail(es[|es| - 1].integrity.hash, |es|)))
    requires cp.chainIndex <= |disk.manifest| ==> ToldApart(k, disk, cp.chainIndex, texts)
    requires Materials(es) <= texts
    requires CompositeText(head, cp.chainIndex, Some(LiveTail(es[|es| - 1].integrity.hash, |es|))) in texts
    ensures Searched(k, disk, path) && path in disk.files && es <= Events(k.read, disk.files[path])
    ensures cp.chainIndex <= |disk.manifest| && head == HeadAt(disk, cp.chainIndex)
  {
    hide CompositeText, Chained, Events, Materials, ManifestProblems, Reproduced, PlainSources, Tried, Searched, HeadAt, EndsPrefix;
    var n, signed := cp.chainIndex, LiveTail(es[|es| - 1].integrity.hash, |es|);
    var tail := ReproducedFrom(k, disk, cp);
    CompositeInjective(head, n, Some(signed), HeadAt(disk, n), n, tail);
    path := TriedBacked(k, disk, signed);
    SamePrefix(k, disk, path, es, texts);
  }
}
