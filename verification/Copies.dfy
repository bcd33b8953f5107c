/** Closed files that a pass leaves unsealed: those whose final hash an entry under another path carries, such
    as copies. */
module Copies {
  import opened Wrappers
  import opened Rotation
  import opened Anchor

  /** The final hash a path would be sealed under. */
  function FinalAt(k: Kit, files: Files, path: string): Option<string> {
    match ShapeAt(k, files, Resolve(k.layout, path)) case None => None case Some(s) => Some(s.finalHash)
  }

  function FinalsOf(k: Kit, files: Files, paths: seq<string>): seq<Option<string>> {
    seq(|paths|, i requires 0 <= i < |paths| => FinalAt(k, files, paths[i]))
  }

  lemma FinalsSnoc(entries: seq<Entry>, e: Entry, f: string)
    ensures f in Finals(entries + [e]) <==> f in Finals(entries) || f == e.finalHash
  {
    var more := Finals(entries + [e]);
    assert more == Finals(entries) + [e.finalHash];
  }

  lemma SealedFinals(k: Kit, files: Files, entries: seq<Entry>, path: string, now: string, f: string)
    ensures f in Finals(Sealed(k, files, entries, path, now)) <==> f in Finals(entries) || FinalAt(k, files, path) == Some(f)
  {
    hide EntryText, ShapeAt, Finals;
    match ShapeAt(k, files, Resolve(k.layout, path))
    case None =>
    case Some(s) =>
      if s.finalHash !in Finals(entries) { FinalsSnoc(entries, NewEntry(k, entries, path, s, now), f); }
  }

  /** After sealing files in order, exactly the final hashes of old entries and of those files are sealed. */
  lemma {:induction false} AdoptedFinals(k: Kit, files: Files, entries: seq<Entry>, paths: seq<string>, now: string, f: string)
    ensures f in Finals(Adopted(k, files, entries, paths, now)) <==> f in Finals(entries) || Some(f) in FinalsOf(k, files, paths)
    decreases paths
  {
    hide Sealed, FinalAt, Finals;
    if paths != [] {
      SealedFinals(k, files, entries, paths[0], now, f);
      AdoptedFinals(k, files, Sealed(k, files, entries, paths[0], now), paths[1..], now, f);
      assert FinalsOf(k, files, paths) == [FinalAt(k, files, paths[0])] + FinalsOf(k, files, paths[1..]);
    }
  }

  lemma SealedPaths(k: Kit, files: Files, entries: seq<Entry>, path: string, now: string, at: string)
    ensures at in SegmentPaths(k, Sealed(k, files, entries, path, now))
       <==> at in SegmentPaths(k, entries) || (Sealed(k, files, entries, path, now) != entries && at == SegmentPath(k.layout, path))
  {
    hide EntryText, ShapeAt, SegmentPath, Finals;
    var once := Sealed(k, files, entries, path, now);
    if once != entries {
      assert SegmentPaths(k, once) == SegmentPaths(k, entries) + [SegmentPath(k.layout, path)];
    }
  }

  /** Sealing other files neither seals this one nor unseals it. */
  lemma {:induction false} AdoptedElsewhere(k: Kit, files: Files, entries: seq<Entry>, paths: seq<string>, now: string, at: string)
    requires forall p | p in paths :: SegmentPath(k.layout, p) != at
    ensures at in SegmentPaths(k, Adopted(k, files, entries, paths, now)) <==> at in SegmentPaths(k, entries)
    decreases paths
  {
    hide Sealed, SegmentPath, SegmentPaths;
    if paths != [] {
      SealedPaths(k, files, entries, paths[0], now, at);
      AdoptedElsewhere(k, files, Sealed(k, files, entries, paths[0], now), paths[1..], now, at);
    }
  }

  lemma {:induction false} AdoptedSplit(k: Kit, files: Files, entries: seq<Entry>, paths: seq<string>, i: nat, now: string)
    requires i < |paths|
    ensures Adopted(k, files, entries, paths, now)
         == Adopted(k, files, Sealed(k, files, Adopted(k, files, entries, paths[..i], now), paths[i], now), paths[i + 1..], now)
    decreases i
  {
    hide Sealed;
    if i > 0 {
      AdoptedSplit(k, files, Sealed(k, files, entries, paths[0], now), paths[1..], i - 1, now);
      assert paths[1..][..i - 1] == paths[..i][1..] && paths[1..][i..] == paths[i + 1..];
    }
  }

  /** Paths are read back as they were written, and are of different files. */
  predicate Resolvable(k: Kit, paths: seq<string>) {
    && (forall i | 0 <= i < |paths| :: SegmentPath(k.layout, paths[i]) == Resolve(k.layout, paths[i]))
    && (forall i, j | 0 <= i < j < |paths| :: Resolve(k.layout, paths[i]) != Resolve(k.layout, paths[j]))
  }

  /** An old entry, or a file sealed before it, has this file's final hash under another path. */
  predicate Preempted(k: Kit, files: Files, entries: seq<Entry>, paths: seq<string>, i: nat)
    requires i < |paths|
  {
    var f := FinalAt(k, files, paths[i]);
    && Resolve(k.layout, paths[i]) !in SegmentPaths(k, entries)
    && f.Some? && (f.value in Finals(entries) || f in FinalsOf(k, files, paths[..i]))
  }

  /** A closed file stays unsealed exactly when its final hash was taken before its turn. */
  lemma StaysUnsealedExactly(k: Kit, files: Files, entries: seq<Entry>, paths: seq<string>, i: nat, now: string)
    requires i < |paths| && Resolvable(k, paths) && FinalAt(k, files, paths[i]).Some?
    ensures Resolve(k.layout, paths[i]) !in SegmentPaths(k, Adopted(k, files, entries, paths, now)) <==> Preempted(k, files, entries, paths, i)
  {
    hide Resolve, SegmentPath, SegmentPaths, Finals, Adopted, EntryText, ShapeAt;
    var at, f := Resolve(k.layout, paths[i]), FinalAt(k, files, paths[i]).value;
    var before := Adopted(k, files, entries, paths[..i], now);
    var once := Sealed(k, files, before, paths[i], now);
    AdoptedSplit(k, files, entries, paths, i, now);
    AdoptedElsewhere(k, files, entries, paths[..i], now, at);
    AdoptedElsewhere(k, files, once, paths[i + 1..], now, at);
    SealedPaths(k, files, before, paths[i], now, at);
    AdoptedFinals(k, files, entries, paths[..i], now, f);
    assert once != before <==> f !in Finals(before);
  }

  // ----- what a pass leaves unsealed

  lemma {:induction false} NoneOpenExactly(k: Kit, paths: seq<string>, closed: seq<string>)
    ensures |StillOpen(k, paths, closed)| == 0 <==> forall i | 0 <= i < |paths| :: Resolve(k.layout, paths[i]) in closed
  {
    hide Resolve;
    if paths != [] {
      NoneOpenExactly(k, paths[1..], closed);
      if |StillOpen(k, paths, closed)| == 0 {
        forall i | 0 <= i < |paths|
          ensures Resolve(k.layout, paths[i]) in closed
        {
          if i > 0 { assert paths[1..][i - 1] == paths[i]; }
        }
      }
    }
  }

  lemma {:induction false} DiscoveredReadable(k: Kit, files: Files, listing: seq<string>, i: nat)
    requires i < |Discovered(k, files, listing)|
    ensures FinalAt(k, files, Discovered(k, files, listing)[i]).Some?
    decreases listing
  {
    hide ShapeAt, ClosedName, ClosedPath, Resolve;
    var path := ClosedPath(k.layout, listing[0]);
    var first := if ClosedName(k.layout.base, listing[0]) && ShapeAt(k, files, Resolve(k.layout, path)).Some? then [path] else [];
    if i >= |first| { DiscoveredReadable(k, files, listing[1..], i - |first|); }
  }

  /** After a pass sealed what it found, files are unsealed exactly when some file's final hash was taken. */
  lemma PassLeavesUnsealedExactly(k: Kit, disk: Disk, now: string)
    requires Resolvable(k, Discovered(k, disk.files, disk.listing))
    ensures Unsealed(k, SealedDisk(k, disk, now)) > 0
       <==> exists i: nat :: i < |Discovered(k, disk.files, disk.listing)|
                          && Preempted(k, disk.files, disk.manifest, Discovered(k, disk.files, disk.listing), i)
  {
    hide Discovered, Adopted, Preempted, Resolvable, StillOpen, SegmentPaths, Resolve, FinalAt;
    var found := Discovered(k, disk.files, disk.listing);
    var all := Adopted(k, disk.files, disk.manifest, found, now);
    NoneOpenExactly(k, found, SegmentPaths(k, all));
    forall i: nat | i < |found|
      ensures Resolve(k.layout, found[i]) !in SegmentPaths(k, all) <==> Preempted(k, disk.files, disk.manifest, found, i)
    {
      DiscoveredReadable(k, disk.files, disk.listing, i);
      StaysUnsealedExactly(k, disk.files, disk.manifest, found, i, now);
    }
  }

  /** Of a closed file and its copy, at most one is sealed by a first pass. */
  lemma CopyStaysUnsealed(k: Kit, disk: Disk, now: string, i: nat, j: nat)
    requires disk.manifest == [] && Resolvable(k, Discovered(k, disk.files, disk.listing))
    requires i < j < |Discovered(k, disk.files, disk.listing)|
    requires var found := Discovered(k, disk.files, disk.listing);
             FinalAt(k, disk.files, found[i]) == FinalAt(k, disk.files, found[j])
    ensures Unsealed(k, SealedDisk(k, disk, now)) > 0
  {
    hide Discovered, Resolvable, Resolve, FinalAt, Unsealed, SealedDisk;
    var found := Discovered(k, disk.files, disk.listing);
    DiscoveredReadable(k, disk.files, disk.listing, j);
    assert FinalsOf(k, disk.files, found[..j])[i] == FinalAt(k, disk.files, found[i]);
    assert Preempted(k, disk.files, disk.manifest, found, j);
    PassLeavesUnsealedExactly(k, disk, now);
  }
}
