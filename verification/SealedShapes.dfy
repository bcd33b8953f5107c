/** What the manifest says of the files it seals (src/audit/rotation.ts): every field of every entry, over honest runs, and
    every problem, on any disk. */
module SealedShapes {
  import opened Wrappers
  import opened Chain
  import opened RecordFiles
  import opened Rotation
  import opened Anchor
  import opened HonestWorld
  import opened HonestSteps
  import opened HonestVerdict

  // ----- the shape of a written file

  lemma {:induction false} EventsCount<P>(f: Format<P>, hash: Hash, ps: seq<P>, state: ChainState)
    ensures var es := EventsFrom(f, hash, ps, state);
            && |es| == |ps|
            && (forall i :: 0 <= i < |ps| ==> es[i].integrity.chainIndex == state.chainIndex + i)
            && (ps != [] ==> StateFrom(f, hash, ps, state) == ChainState(state.chainIndex + |ps|, Some(es[|ps| - 1].integrity.hash)))
    decreases ps
  {
    hide HashMaterial;
    if ps != [] {
      var e := ChainEvent(hash, f.canon(ps[0]), state);
      EventsCount(f, hash, ps[1..], After(e));
      var rest := EventsFrom(f, hash, ps[1..], After(e));
      assert EventsFrom(f, hash, ps, state) == [e] + rest;
      if |ps| == 1 { assert rest == []; } else { assert StateFrom(f, hash, ps[1..], After(e)) == StateFrom(f, hash, ps, state); }
    }
  }

  /** A written file's shape: how many records, the index it began at, the index before the next one, and the link the next
      one will carry. */
  lemma WrittenShape<P(!new)>(f: Format<P>, hash: Hash, ps: seq<P>, state: ChainState)
    requires Faithful(f) && ps != []
    ensures var next := StateFrom(f, hash, ps, state);
            && next.previousHash.Some?
            && Shape(Events(f.read, FileFrom(f, hash, ps, state)))
               == Some(Summary(|ps|, state.chainIndex, next.chainIndex - 1, next.previousHash.value))
            && next.chainIndex == state.chainIndex + |ps|
  {
    hide Events, FileFrom, EventsFrom, StateFrom, Faithful, Verified;
    WrittenVerifies(f, hash, ps, state);
    EventsCount(f, hash, ps, state);
  }

  // ----- the entries of an honest run

  /** The entry tells the closed file: its path, how many records it holds, where they begin and end, and what both it and
      the file before it ended with. */
  ghost predicate Tells<P>(env: Env<P>, closed: seq<Closed<P>>, e: Entry, i: nat)
    requires i < |closed|
  {
    var piece := closed[i].piece;
    var next := StateFrom(env.f, env.hash, piece.ps, piece.start);
    && e.path == ClosedPath(env.layout, closed[i].name)
    && e.count == |piece.ps| && e.firstIndex == piece.start.chainIndex && e.lastIndex == next.chainIndex - 1
    && Some(e.finalHash) == next.previousHash
    && e.previousSegmentHash
       == (if i == 0 then None else StateFrom(env.f, env.hash, closed[i - 1].piece.ps, closed[i - 1].piece.start).previousHash)
    && e.entryHash == env.hash(EntryText(e))
  }

  lemma FinalOf<P(!new)>(env: Env<P>, w: World<P>, i: nat)
    requires Faithful(env.f) && PathsAgree(env.layout) && FilesMatch(env, w) && ManifestMatches(env, w) && i < |w.disk.manifest|
    ensures var e, piece := w.disk.manifest[i], w.closed[i].piece;
            var next := StateFrom(env.f, env.hash, piece.ps, piece.start);
            && e.path == ClosedPath(env.layout, w.closed[i].name)
            && e.count == |piece.ps| && e.firstIndex == piece.start.chainIndex && e.lastIndex == next.chainIndex - 1
            && Some(e.finalHash) == next.previousHash && next.chainIndex == piece.start.chainIndex + |piece.ps|
            && EntrySound(KitOf(env), w.disk.files, w.disk.manifest, i)
  {
    hide Events, EntryText, ManifestProblems, Faithful, FileFrom, StateFrom, PathsAgree, LiveHere, Discovered, SegmentPath, Shape, ClosedAt,
      ClosedName, ClosedPath;
    ManifestCleanExactly(KitOf(env), w.disk.files, w.disk.manifest);
    assert ClosedHere(env, w.disk.files, w.closed[i]);
    assert EntrySound(KitOf(env), w.disk.files, w.disk.manifest, i);
    EntryFinds(env.layout, w.closed[i].name);
    WrittenShape(env.f, env.hash, w.closed[i].piece.ps, w.closed[i].piece.start);
  }

  lemma WorldTells<P(!new)>(env: Env<P>, w: World<P>, i: nat)
    requires Faithful(env.f) && PathsAgree(env.layout) && FilesMatch(env, w) && ManifestMatches(env, w) && i < |w.disk.manifest|
    ensures Tells(env, w.closed, w.disk.manifest[i], i)
  {
    hide Faithful, FilesMatch, PathsAgree, ManifestProblems, StateFrom, ShapeAt, EntryText, ClosedPath;
    FinalOf(env, w, i);
    if i > 0 { FinalOf(env, w, i - 1); }
  }

  /** After any honest run every entry of the manifest tells its file, in the order of closing. */
  lemma EntriesTell<P(!new)>(env: Env<P>, ops: seq<Op<P>>, i: nat)
    requires Faithful(env.f) && PathsAgree(env.layout) && Signs(env.t) && Fresh(env, Run(env, Boot<P>(), ops))
    requires i < |Run(env, Boot<P>(), ops).disk.manifest|
    ensures var w := Run(env, Boot<P>(), ops); |w.disk.manifest| <= |w.closed| && Tells(env, w.closed, w.disk.manifest[i], i)
  {
    hide Run, PathsAgree, Signs, Fresh, NoRepeats, FilesMatch, HistoryMatches, ChainMatches, SignedMatch, ManifestProblems, Tells;
    RunHonest(env, ops);
    WorldTells(env, Run(env, Boot<P>(), ops), i);
  }

  /** How many records the first files hold. */
  function Held<P>(closed: seq<Closed<P>>): nat {
    if closed == [] then 0 else Held(closed[..|closed| - 1]) + |closed[|closed| - 1].piece.ps|
  }

  lemma {:induction false} TotalHeld<P(!new)>(env: Env<P>, w: World<P>, n: nat)
    requires Faithful(env.f) && PathsAgree(env.layout) && FilesMatch(env, w) && ManifestMatches(env, w) && n <= |w.disk.manifest|
    ensures RecordTotal(w.disk.manifest[..n]) == Held(w.closed[..n])
  {
    hide Faithful, FilesMatch, PathsAgree, ManifestProblems, StateFrom, EntrySound, ClosedPath;
    if n > 0 {
      TotalHeld(env, w, n - 1);
      FinalOf(env, w, n - 1);
      assert w.disk.manifest[..n][..n - 1] == w.disk.manifest[..n - 1] && w.closed[..n][..n - 1] == w.closed[..n - 1];
    }
  }

  // ----- the problems of any manifest

  /** The file an entry leads to, when it is there. */
  function FileOf(k: Kit, files: Files, e: Entry): Option<string> {
    var at := SegmentPath(k.layout, e.path);
    if at in files then Some(files[at]) else None
  }

  /** What differs between an entry and the file it leads to: nothing readable, or the hash of its last record, how many
      records, and the indexes of the first and the last. */
  ghost predicate Differs(k: Kit, raw: string, e: Entry, d: Difference) {
    var es := Events(k.read, raw);
    if es == [] then d == Unreadable
    else
      match d
      case Unreadable => false
      case FinalHashDiffers => e.finalHash != es[|es| - 1].integrity.hash
      case CountDiffers => e.count != |es|
      case FirstIndexDiffers => e.firstIndex != es[0].integrity.chainIndex
      case LastIndexDiffers => e.lastIndex != es[|es| - 1].integrity.chainIndex
  }

  lemma ContentReported(k: Kit, files: Files, e: Entry, i: nat, d: Difference)
    ensures var found := ContentProblems(k, files, e, i);
            && (SegmentMissing(i) in found <==> FileOf(k, files, e).None?)
            && ((exists ds :: ContentMismatch(i, ds) in found && d in ds)
                <==> FileOf(k, files, e).Some? && Differs(k, FileOf(k, files, e).value, e, d))
            && (found == [] <==> FileOf(k, files, e).Some? && forall x :: !Differs(k, FileOf(k, files, e).value, e, x))
            && forall p :: p in found ==> p.ContentMismatch? || p.SegmentMissing?
  {
    hide Events, SegmentPath;
    if FileOf(k, files, e).Some? {
      var es := Events(k.read, FileOf(k, files, e).value);
      var ds := Differences(e, Shape(es));
      DifferencesExactly(k, FileOf(k, files, e).value, e);
      if ds != [] {
        assert ContentProblems(k, files, e, i) == [ContentMismatch(i, ds)];
        assert Differs(k, FileOf(k, files, e).value, e, ds[0]);
      } else {
        assert ContentProblems(k, files, e, i) == [];
      }
    }
  }

  lemma DifferencesExactly(k: Kit, raw: string, e: Entry)
    ensures forall d :: d in Differences(e, Shape(Events(k.read, raw))) <==> Differs(k, raw, e, d)
  {
    hide Events;
  }

  /** Which problems entry `i` is reported with: a hash that is not its own text's, a link that is not the hash the entry
      before it ends with, a file that is not there, and everything that differs from the file. */
  ghost predicate Reported(k: Kit, files: Files, entries: seq<Entry>, i: nat, p: ManifestProblem)
    requires i < |entries|
  {
    match p
    case EntryHashMismatch(n) => n == i && k.hash(EntryText(entries[i])) != entries[i].entryHash
    case LinkBroken(n) => n == i && entries[i].previousSegmentHash != (if i == 0 then None else Some(entries[i - 1].finalHash))
    case SegmentMissing(n) => n == i && FileOf(k, files, entries[i]).None?
    case ContentMismatch(n, ds) =>
      n == i && ds != [] && FileOf(k, files, entries[i]).Some?
      && ds == Differences(entries[i], Shape(Events(k.read, FileOf(k, files, entries[i]).value)))
  }

  lemma EntryReported(k: Kit, files: Files, entries: seq<Entry>, i: nat, p: ManifestProblem)
    requires i < |entries|
    ensures p in EntryProblems(k, files, entries[i], i, Head(entries[..i])) <==> Reported(k, files, entries, i, p)
  {
    hide Events, EntryText, SegmentPath, Differences;
  }

  /** A problem is in the report of the manifest exactly when some entry is reported with it. */
  lemma {:induction false} ManifestReported(k: Kit, files: Files, entries: seq<Entry>, p: ManifestProblem)
    ensures p in ManifestProblems(k, files, entries) <==> exists i: nat :: i < |entries| && Reported(k, files, entries, i, p)
    decreases entries
  {
    hide EntryProblems, Reported;
    if entries != [] {
      var n := |entries| - 1;
      ManifestReported(k, files, entries[..n], p);
      EntryReported(k, files, entries, n, p);
      forall i: nat | i < n
        ensures Reported(k, files, entries[..n], i, p) <==> Reported(k, files, entries, i, p)
      {
        EarlierReported(k, files, entries, i, p);
      }
    }
  }

  lemma EarlierReported(k: Kit, files: Files, entries: seq<Entry>, i: nat, p: ManifestProblem)
    requires i < |entries| - 1
    ensures Reported(k, files, entries[..|entries| - 1], i, p) <==> Reported(k, files, entries, i, p)
  {
    hide EntryText, Events, SegmentPath, Differences;
  }

  // ----- the closed files found

  /** A name beside the live file that a rotation gives: the live file's, a dot and more, and not a lock. */
  predicate Rotated(base: string, name: string) {
    && |name| > |base| && name[..|base|] == base && name[|base|] == '.'
    && (|name| < 5 || name[|name| - 5..] != ".lock")
  }

  lemma RotatedExactly(base: string, name: string)
    ensures ClosedName(base, name) <==> Rotated(base, name)
  {
    if |name| > |base| { assert name[..|base| + 1] == name[..|base|] + [name[|base|]]; }
    if ClosedName(base, name) {
      var b := base + ".";
      assert b[|base|] == name[|base|] == '.' && name[..|b|] == b;
    }
  }

  /** What is found: the path of every name listed that a rotation gives and under which a file with a record stands. */
  lemma {:induction false} DiscoveredExactly(k: Kit, files: Files, listing: seq<string>, path: string)
    ensures path in Discovered(k, files, listing)
       <==> exists i: nat :: i < |listing| && path == ClosedPath(k.layout, listing[i]) && Rotated(k.layout.base, listing[i])
                          && Resolve(k.layout, path) in files && Events(k.read, files[Resolve(k.layout, path)]) != []
    decreases listing
  {
    hide Events, ClosedPath, Resolve, Rotated, ClosedName;
    if listing != [] {
      RotatedExactly(k.layout.base, listing[0]);
      DiscoveredExactly(k, files, listing[1..], path);
      assert forall i: nat :: i < |listing| - 1 ==> listing[1..][i] == listing[i + 1];
      assert forall i: nat :: 0 < i < |listing| ==> listing[i] == listing[1..][i - 1];
    }
  }
}
