/** Every honest step keeps the evidence directory honest. */
module HonestSteps {
  import opened Text
  import opened Chain
  import opened Resume
  import opened RecordFiles
  import opened Rotation
  import opened Anchor
  import opened HonestWorld

  // ----- where files are

  lemma UnderInjective(dir: string, p: string, q: string)
    ensures Under(dir, p) == Under(dir, q) ==> p == q
  {
    if Under(dir, p) == Under(dir, q) && dir != "" { SameHead(dir + "/", p, q); }
  }

  lemma RelativeName(l: Layout, name: string)
    requires Proper(l) && (ClosedName(l.base, name) || name == l.base)
    ensures name != "" && !IsAbsolute(name) && IsAbsolute(Under(l.dir, name)) == IsAbsolute(l.dir)
  {
    assert name[0] == l.base[0];
    if l.dir != "" { assert Under(l.dir, name)[0] == l.dir[0]; }
  }

  /** Different names beside the live file are different files, and none is the live file. */
  lemma NamesApart(l: Layout, n: string, m: string)
    requires Proper(l) && (ClosedName(l.base, n) || n == l.base) && (ClosedName(l.base, m) || m == l.base)
    ensures ClosedAt(l, n) == ClosedAt(l, m) ==> n == m
  {
    RelativeName(l, n);
    RelativeName(l, m);
    UnderInjective(l.dir, n, m);
    UnderInjective(l.cwd, Under(l.dir, n), Under(l.dir, m));
  }

  lemma ClosedAtInjective(l: Layout, n: string, m: string)
    requires PathsAgree(l) && (ClosedName(l.base, n) || n == l.base) && (ClosedName(l.base, m) || m == l.base)
    ensures ClosedAt(l, n) == ClosedAt(l, m) ==> n == m
  {
    NamesApart(l, n, m);
  }

  lemma ClosedNotLive<P>(env: Env<P>, name: string)
    requires PathsAgree(env.layout) && ClosedName(env.layout.base, name)
    ensures ClosedAt(env.layout, name) != LiveAt(KitOf(env))
  {
    ClosedAtInjective(env.layout, name, env.layout.base);
    assert |name| > |env.layout.base|;
  }

  lemma EntryFinds(l: Layout, name: string)
    requires PathsAgree(l) && ClosedName(l.base, name)
    ensures SegmentPath(l, ClosedPath(l, name)) == ClosedAt(l, name)
  {
    RelativeName(l, name);
    SegmentPathFindsFile(l, name);
  }

  // ----- what depends on which files

  lemma {:induction false} DiscoveredFrame(k: Kit, files: Files, other: Files, listing: seq<string>)
    requires forall i | 0 <= i < |listing| && ClosedName(k.layout.base, listing[i]) ::
               ShapeAt(k, files, ClosedAt(k.layout, listing[i])) == ShapeAt(k, other, ClosedAt(k.layout, listing[i]))
    ensures Discovered(k, files, listing) == Discovered(k, other, listing)
    decreases listing
  {
    hide ShapeAt, ClosedName;
    if listing != [] {
      assert ClosedAt(k.layout, listing[0]) == Resolve(k.layout, ClosedPath(k.layout, listing[0]));
      DiscoveredFrame(k, files, other, listing[1..]);
    }
  }

  lemma {:induction false} DiscoveredAppend(k: Kit, files: Files, listing: seq<string>, name: string)
    ensures Discovered(k, files, listing + [name]) == Discovered(k, files, listing) + Discovered(k, files, [name])
    decreases listing
  {
    hide ShapeAt, ClosedName, ClosedPath, Resolve;
    if listing == [] {
      assert listing + [name] == [name];
    } else {
      assert (listing + [name])[1..] == listing[1..] + [name];
      DiscoveredAppend(k, files, listing[1..], name);
    }
  }

  lemma ManifestFrame(k: Kit, files: Files, other: Files, entries: seq<Entry>)
    requires ManifestProblems(k, files, entries) == []
    requires forall i | 0 <= i < |entries| ::
               ShapeAt(k, files, SegmentPath(k.layout, entries[i].path)) == ShapeAt(k, other, SegmentPath(k.layout, entries[i].path))
    ensures ManifestProblems(k, other, entries) == []
  {
    hide EntryText, ShapeAt, SegmentPath, ManifestProblems;
    ManifestCleanExactly(k, files, entries);
    ManifestCleanExactly(k, other, entries);
    forall i | 0 <= i < |entries|
      ensures EntrySound(k, other, entries, i)
    {
      assert EntrySound(k, files, entries, i);
    }
  }

  // ----- what a file holding a piece looks like

  lemma PieceShape<P(!new)>(env: Env<P>, piece: Piece<P>)
    requires Faithful(env.f)
    ensures Events(env.f.read, TextOf(env, piece)) == EventsOf(env, piece)
    ensures |EventsOf(env, piece)| == |piece.ps|
    ensures Verified(env.f.read, env.f.gaps, env.hash, TextOf(env, piece)).problems == []
  {
    hide Verified, Events;
    WrittenVerifies(env.f, env.hash, piece.ps, piece.start);
    EventsLength(env.f, env.hash, piece.ps, piece.start);
  }

  lemma EmptyText<P>(env: Env<P>, piece: Piece<P>)
    requires piece.ps == []
    ensures TextOf(env, piece) == "" && EventsOf(env, piece) == []
  {
  }

  function LastPlace<P>(c: Closed<P>): int { c.begin + |c.piece.ps| - 1 }

  /** A closed file's final hash and index are those of the last record written to it. */
  lemma ClosedShape<P(!new)>(env: Env<P>, files: Files, written: seq<Event>, c: Closed<P>)
    requires Faithful(env.f) && ClosedHere(env, files, c) && InPlace(env, written, c)
    ensures 0 <= LastPlace(c) < |written|
    ensures var s := ShapeAt(KitOf(env), files, ClosedAt(env.layout, c.name));
            s.Some? && s.value.finalHash == written[LastPlace(c)].integrity.hash
            && s.value.lastIndex == written[LastPlace(c)].integrity.chainIndex
  {
    hide Events, ClosedName, ClosedAt, TextOf, EventsOf, Verified;
    PieceShape(env, c.piece);
    var es := EventsOf(env, c.piece);
    assert written[c.begin..c.begin + |c.piece.ps|][|es| - 1] == written[LastPlace(c)];
    assert ShapeAt(KitOf(env), files, ClosedAt(env.layout, c.name)) == Shape(es);
  }

  /** So a matching manifest entry carries that hash and index. */
  lemma EntryShape<P(!new)>(env: Env<P>, w: World<P>, entries: seq<Entry>, i: nat)
    requires Faithful(env.f) && PathsAgree(env.layout) && FilesMatch(env, w) && HistoryMatches(env, w)
    requires Manifested(env, w.disk.files, w.closed, entries) && i < |entries|
    ensures 0 <= LastPlace(w.closed[i]) < |w.written|
    ensures entries[i].finalHash == w.written[LastPlace(w.closed[i])].integrity.hash
    ensures entries[i].lastIndex == w.written[LastPlace(w.closed[i])].integrity.chainIndex
    ensures SegmentPath(env.layout, entries[i].path) == ClosedAt(env.layout, w.closed[i].name)
  {
    hide ShapeAt, EntryText, ManifestProblems, InPlace, Discovered, ClosedAt, ClosedName, SegmentPath;
    ClosedShape(env, w.disk.files, w.written, w.closed[i]);
    EntryFinds(env.layout, w.closed[i].name);
    ManifestCleanExactly(KitOf(env), w.disk.files, entries);
    assert EntrySound(KitOf(env), w.disk.files, entries, i);
  }

  // ----- commitments survive growth

  /** Pieces with records are still where they were, and only grew. */
  ghost predicate PiecesGrow<P>(env: Env<P>, w: World<P>, v: World<P>) {
    forall i: nat | HasPiece(w, i) && PieceAt(w, i).ps != [] ::
      HasPiece(v, i) && |PieceAt(w, i).ps| <= |PieceAt(v, i).ps| && EventsOf(env, PieceAt(w, i)) <= EventsOf(env, PieceAt(v, i))
  }

  lemma CommittedFrame<P>(env: Env<P>, w: World<P>, v: World<P>, cp: Checkpoint, c: Commitment)
    requires Committed(env, w, cp, c) && w.disk.manifest <= v.disk.manifest && PiecesGrow(env, w, v)
    ensures Committed(env, v, cp, c)
  {
    hide EventsOf, Composite;
    assert v.disk.manifest[..c.segments] == w.disk.manifest[..c.segments];
  }

  lemma SignedFrame<P>(env: Env<P>, w: World<P>, v: World<P>)
    requires SignedMatch(env, w) && w.disk.manifest <= v.disk.manifest && PiecesGrow(env, w, v)
    requires v.disk.anchors == w.disk.anchors && v.disk.hasKey == w.disk.hasKey && v.disk.proofs == w.disk.proofs && v.signed == w.signed
    ensures SignedMatch(env, v)
  {
    hide WellRecorded, PiecesGrow, Committed;
    forall i | 0 <= i < |w.signed|
      ensures w.disk.anchors[i].Anchored? && w.disk.anchors[i].record.checkpoint.Some?
    {
      RecordedForm(env, w.disk.proofs, w.disk.anchors[i]);
    }
    forall i | 0 <= i < |w.signed|
      ensures Committed(env, v, v.disk.anchors[i].record.checkpoint.value, v.signed[i])
    {
      CommittedFrame(env, w, v, w.disk.anchors[i].record.checkpoint.value, w.signed[i]);
    }
  }

  lemma RecordedForm<P>(env: Env<P>, proofs: map<string, string>, line: AnchorLine)
    requires WellRecorded(env, proofs, line)
    ensures line.Anchored? && line.record.checkpoint.Some?
  {
  }

  // ----- append

  /** What an append writes extends the live piece by one record. */
  lemma AppendPiece<P>(env: Env<P>, w: World<P>, p: P)
    requires LiveHere(env, w.disk.files, w.live) && ChainMatches(env, w)
    ensures var v := AppendStep(env, w, p);
            var e := v.written[|w.written|];
            && v.live.Some? && v.live.value.ps != []
            && EventsOf(env, v.live.value) == (if w.live.Some? then EventsOf(env, w.live.value) else []) + [e]
            && |v.live.value.ps| == LiveCount(w.live) + 1
            && v.chain == StateFrom(env.f, env.hash, v.live.value.ps, v.live.value.start)
            && v.disk.files[LiveAt(KitOf(env))] == TextOf(env, v.live.value)
  {
    hide LiveAt, HashMaterial;
    var v := AppendStep(env, w, p);
    var started := if LiveCount(w.live) > 0 then w.live.value else Piece(w.chain, []);
    AppendOne(env.f, env.hash, started.ps, p, started.start);
    assert v.live.value.ps == started.ps + [p];
    if w.live.Some? && w.live.value.ps == [] { EmptyText(env, w.live.value); }
    if LiveCount(w.live) == 0 { EmptyText(env, started); }
    var at := LiveAt(KitOf(env));
    var before := if at in w.disk.files then w.disk.files[at] else "";
    assert before == TextOf(env, started);
  }

  lemma AppendFiles<P>(env: Env<P>, w: World<P>, p: P)
    requires PathsAgree(env.layout) && FilesMatch(env, w) && ChainMatches(env, w)
    ensures FilesMatch(env, AppendStep(env, w, p))
  {
    hide TextOf, ClosedName, ClosedAt, LiveAt, PathsAgree, AppendStep, ChainMatches, Events;
    var v := AppendStep(env, w, p);
    AppendPiece(env, w, p);
    AppendOnlyLive(env, w, p);
    forall i | 0 <= i < |w.closed|
      ensures ClosedHere(env, v.disk.files, v.closed[i])
    {
      ClosedNotLive(env, w.closed[i].name);
    }
    forall i | 0 <= i < |w.disk.listing| && ClosedName(env.layout.base, w.disk.listing[i])
      ensures ClosedAt(env.layout, w.disk.listing[i]) != LiveAt(KitOf(env))
    {
      ClosedNotLive(env, w.disk.listing[i]);
    }
    DiscoveredFrame(KitOf(env), w.disk.files, v.disk.files, w.disk.listing);
  }

  lemma AppendOnlyLive<P>(env: Env<P>, w: World<P>, p: P)
    ensures var v := AppendStep(env, w, p);
            && v.closed == w.closed && v.disk.listing == w.disk.listing && v.disk.manifest == w.disk.manifest
            && v.disk.anchors == w.disk.anchors && v.disk.proofs == w.disk.proofs && v.disk.hasKey == w.disk.hasKey
            && v.signed == w.signed && v.live.Some? && |v.written| == |w.written| + 1 && w.written == v.written[..|w.written|]
            && (forall at | at != LiveAt(KitOf(env)) :: at in v.disk.files <==> at in w.disk.files)
            && (forall at | at != LiveAt(KitOf(env)) && at in w.disk.files :: v.disk.files[at] == w.disk.files[at])
            && LiveAt(KitOf(env)) in v.disk.files
  {
    hide LiveAt, HashMaterial;
  }

  lemma InPlaceFrame<P>(env: Env<P>, written: seq<Event>, more: seq<Event>, c: Closed<P>)
    requires InPlace(env, written, c) && written <= more
    ensures InPlace(env, more, c)
  {
    assert more[c.begin..c.begin + |c.piece.ps|] == written[c.begin..c.begin + |c.piece.ps|];
  }

  lemma TailGrows(written: seq<Event>, more: seq<Event>, b: nat)
    requires |more| == |written| + 1 && written == more[..|written|] && b <= |written|
    ensures more[b..] == written[b..] + [more[|written|]] && written <= more
  {
  }

  lemma AppendHistory<P>(env: Env<P>, w: World<P>, p: P)
    requires LiveHere(env, w.disk.files, w.live) && ChainMatches(env, w) && HistoryMatches(env, w)
    ensures HistoryMatches(env, AppendStep(env, w, p))
  {
    hide EventsOf, InPlace, AppendStep, LiveHere, ChainMatches;
    var v := AppendStep(env, w, p);
    AppendPiece(env, w, p);
    AppendOnlyLive(env, w, p);
    var b := Before(w.written, w.live);
    assert Before(v.written, v.live) == b;
    TailGrows(w.written, v.written, b);
    if w.live.None? { assert w.written[b..] == []; }
    forall i | 0 <= i < |w.closed|
      ensures InPlace(env, v.written, v.closed[i])
    {
      InPlaceFrame(env, w.written, v.written, w.closed[i]);
    }
  }

  lemma AppendManifest<P>(env: Env<P>, w: World<P>, p: P)
    requires PathsAgree(env.layout) && FilesMatch(env, w) && ManifestMatches(env, w)
    ensures ManifestMatches(env, AppendStep(env, w, p))
  {
    hide ClosedName, ClosedAt, LiveAt, PathsAgree, AppendStep, ManifestProblems, ClosedPath, SegmentPath, Events, Discovered;
    var v := AppendStep(env, w, p);
    AppendOnlyLive(env, w, p);
    forall i | 0 <= i < |w.disk.manifest|
      ensures SegmentPath(env.layout, w.disk.manifest[i].path) != LiveAt(KitOf(env))
    {
      assert ClosedHere(env, w.disk.files, w.closed[i]);
      EntryFinds(env.layout, w.closed[i].name);
      ClosedNotLive(env, w.closed[i].name);
    }
    ManifestFrame(KitOf(env), w.disk.files, v.disk.files, w.disk.manifest);
  }

  lemma AppendSigned<P>(env: Env<P>, w: World<P>, p: P)
    requires LiveHere(env, w.disk.files, w.live) && ChainMatches(env, w) && SignedMatch(env, w)
    ensures SignedMatch(env, AppendStep(env, w, p))
  {
    hide EventsOf, AppendStep, LiveHere, ChainMatches, SignedMatch;
    var v := AppendStep(env, w, p);
    AppendPiece(env, w, p);
    AppendOnlyLive(env, w, p);
    SignedFrame(env, w, v);
  }

  lemma AppendKeeps<P>(env: Env<P>, w: World<P>, p: P)
    requires PathsAgree(env.layout) && Honest(env, w)
    ensures Honest(env, AppendStep(env, w, p))
  {
    hide FilesMatch, HistoryMatches, ManifestMatches, SignedMatch, LiveHere, PathsAgree;
    assert LiveHere(env, w.disk.files, w.live) by { LiveOf(env, w); }
    AppendFiles(env, w, p);
    AppendHistory(env, w, p);
    AppendManifest(env, w, p);
    AppendSigned(env, w, p);
    AppendPiece(env, w, p);
  }

  lemma LiveOf<P>(env: Env<P>, w: World<P>)
    requires FilesMatch(env, w)
    ensures LiveHere(env, w.disk.files, w.live)
  {
  }

  // ----- rotate

  lemma RotateFiles<P>(env: Env<P>, files: Files, name: string, create: bool, at: string)
    requires PathsAgree(env.layout) && LiveAt(KitOf(env)) in files && ClosedName(env.layout.base, name)
    ensures var moved := RotatedFiles(env, files, name, create);
            var live, closed := LiveAt(KitOf(env)), ClosedAt(env.layout, name);
            && closed in moved && moved[closed] == files[live] && closed != live
            && (live in moved <==> create) && (create ==> moved[live] == "")
            && (at != live && at != closed ==> (at in moved <==> at in files) && (at in files ==> moved[at] == files[at]))
  {
    hide LiveAt, ClosedAt, PathsAgree;
    ClosedNotLive(env, name);
  }

  /** A file's place is not touched by a rotation to another name. */
  lemma RotateElsewhere<P>(env: Env<P>, files: Files, name: string, create: bool, other: string)
    requires PathsAgree(env.layout) && LiveAt(KitOf(env)) in files && ClosedName(env.layout.base, name)
    requires ClosedName(env.layout.base, other) && other != name
    ensures var moved, at := RotatedFiles(env, files, name, create), ClosedAt(env.layout, other);
            (at in moved <==> at in files) && (at in files ==> moved[at] == files[at])
  {
    hide LiveAt, ClosedAt, ClosedName, PathsAgree, RotatedFiles;
    RotateFiles(env, files, name, create, ClosedAt(env.layout, other));
    ClosedNotLive(env, other);
    ClosedAtInjective(env.layout, name, other);
  }

  lemma RotateDiscovers<P(!new)>(env: Env<P>, w: World<P>, name: string, create: bool)
    requires Faithful(env.f) && PathsAgree(env.layout) && FilesMatch(env, w) && CanRotate(env, w, name)
    ensures var v := RotateStep(env, w, name, create);
            Discovered(KitOf(env), v.disk.files, v.disk.listing) == PathsOf(env.layout, v.closed)
  {
    hide ClosedName, ClosedAt, LiveAt, PathsAgree, RotatedFiles, ClosedHere, ShapeAt, TextOf, Discovered;
    var v, k := RotateStep(env, w, name, create), KitOf(env);
    forall i | 0 <= i < |w.disk.listing| && ClosedName(env.layout.base, w.disk.listing[i])
      ensures ShapeAt(k, w.disk.files, ClosedAt(env.layout, w.disk.listing[i])) == ShapeAt(k, v.disk.files, ClosedAt(env.layout, w.disk.listing[i]))
    {
      RotateElsewhere(env, w.disk.files, name, create, w.disk.listing[i]);
      SameShape(k, w.disk.files, v.disk.files, ClosedAt(env.layout, w.disk.listing[i]));
    }
    DiscoveredFrame(k, w.disk.files, v.disk.files, w.disk.listing);
    DiscoveredAppend(k, v.disk.files, w.disk.listing, name);
    MovedShape(env, w, name, create);
    DiscoveredOne(k, v.disk.files, name);
  }

  lemma SameShape(k: Kit, files: Files, other: Files, at: string)
    requires (at in other <==> at in files) && (at in files ==> other[at] == files[at])
    ensures ShapeAt(k, files, at) == ShapeAt(k, other, at)
  {
    hide Events;
  }

  /** The moved file is a closed segment exactly when it holds records. */
  lemma MovedShape<P(!new)>(env: Env<P>, w: World<P>, name: string, create: bool)
    requires Faithful(env.f) && PathsAgree(env.layout) && LiveHere(env, w.disk.files, w.live) && CanRotate(env, w, name)
    ensures ShapeAt(KitOf(env), RotatedFiles(env, w.disk.files, name, create), ClosedAt(env.layout, name)).Some? <==> LiveCount(w.live) > 0
  {
    hide ClosedName, ClosedAt, LiveAt, PathsAgree, RotatedFiles, Events, TextOf, EventsOf, Verified;
    RotateFiles(env, w.disk.files, name, create, "");
    PieceShape(env, w.live.value);
  }

  lemma DiscoveredOne(k: Kit, files: Files, name: string)
    requires ClosedName(k.layout.base, name)
    ensures Discovered(k, files, [name])
         == if ShapeAt(k, files, ClosedAt(k.layout, name)).Some? then [ClosedPath(k.layout, name)] else []
  {
    hide ClosedName, ClosedPath, Resolve, ShapeAt;
    assert [name][1..] == [];
  }

  lemma RotateKeepsFiles<P(!new)>(env: Env<P>, w: World<P>, name: string, create: bool)
    requires Faithful(env.f) && PathsAgree(env.layout) && FilesMatch(env, w) && CanRotate(env, w, name)
    ensures FilesMatch(env, RotateStep(env, w, name, create))
  {
    hide ClosedName, ClosedAt, LiveAt, PathsAgree, RotatedFiles, TextOf, Discovered;
    var v := RotateStep(env, w, name, create);
    RotateDiscovers(env, w, name, create);
    RotateFiles(env, w.disk.files, name, create, "");
    EmptyText(env, Piece(FRESH, []));
    forall i | 0 <= i < |v.closed|
      ensures ClosedHere(env, v.disk.files, v.closed[i])
    {
      if i < |w.closed| {
        assert ClosedHere(env, w.disk.files, w.closed[i]);
        RotateElsewhere(env, w.disk.files, name, create, w.closed[i].name);
      }
    }
  }

  /** The live file's records are in place for it to be closed. */
  lemma LiveInPlace<P>(env: Env<P>, w: World<P>, name: string)
    requires HistoryMatches(env, w) && LiveCount(w.live) > 0
    ensures InPlace(env, w.written, Closed(name, w.live.value, Before(w.written, w.live)))
  {
    hide EventsOf;
    var b := Before(w.written, w.live);
    assert w.written[b..b + LiveCount(w.live)] == w.written[b..];
  }

  lemma RotateHistory<P(!new)>(env: Env<P>, w: World<P>, name: string, create: bool)
    requires Faithful(env.f) && HistoryMatches(env, w) && CanRotate(env, w, name) && LiveHere(env, w.disk.files, w.live)
    ensures HistoryMatches(env, RotateStep(env, w, name, create))
  {
    hide CanRotate, EventsOf, RotatedFiles, InPlace, LiveHere;
    var v := RotateStep(env, w, name, create);
    EmptyText(env, Piece(FRESH, []));
    assert Before(v.written, v.live) == |w.written|;
    assert w.written[|w.written|..] == [];
    if LiveCount(w.live) > 0 { LiveInPlace(env, w, name); }
  }

  lemma RotateManifest<P>(env: Env<P>, w: World<P>, name: string, create: bool)
    requires PathsAgree(env.layout) && FilesMatch(env, w) && ManifestMatches(env, w) && CanRotate(env, w, name)
    ensures ManifestMatches(env, RotateStep(env, w, name, create))
  {
    hide ClosedName, ClosedAt, LiveAt, PathsAgree, ManifestProblems, ClosedPath, SegmentPath, Events, Discovered, RotatedFiles;
    var v := RotateStep(env, w, name, create);
    forall i | 0 <= i < |w.disk.manifest|
      ensures ShapeAt(KitOf(env), w.disk.files, SegmentPath(env.layout, w.disk.manifest[i].path))
           == ShapeAt(KitOf(env), v.disk.files, SegmentPath(env.layout, w.disk.manifest[i].path))
    {
      assert ClosedHere(env, w.disk.files, w.closed[i]);
      EntryFinds(env.layout, w.closed[i].name);
      RotateElsewhere(env, w.disk.files, name, create, w.closed[i].name);
    }
    ManifestFrame(KitOf(env), w.disk.files, v.disk.files, w.disk.manifest);
  }

  lemma RotateKeeps<P(!new)>(env: Env<P>, w: World<P>, name: string, create: bool)
    requires Faithful(env.f) && PathsAgree(env.layout) && Honest(env, w)
    ensures Honest(env, RotateStep(env, w, name, create))
  {
    hide FilesMatch, HistoryMatches, ManifestMatches, SignedMatch, PathsAgree, CanRotate, EventsOf;
    if CanRotate(env, w, name) {
      var v := RotateStep(env, w, name, create);
      LiveOf(env, w);
      RotateKeepsFiles(env, w, name, create);
      RotateHistory(env, w, name, create);
      RotateManifest(env, w, name, create);
      assert PiecesGrow(env, w, v);
      SignedFrame(env, w, v);
    }
  }

  // ----- restart

  lemma RestartKeeps<P(!new)>(env: Env<P>, w: World<P>, chunk: nat)
    requires Faithful(env.f) && Honest(env, w) && chunk > 0
    ensures Honest(env, RestartStep(env, w, chunk))
    ensures LiveCount(w.live) > 0 ==> RestartStep(env, w, chunk).chain == w.chain
  {
    hide FilesMatch, HistoryMatches, ManifestMatches, SignedMatch, LiveAt, FromCandidates, Window;
    var v := RestartStep(env, w, chunk);
    RestartOnlyChain(env, w, chunk);
    LiveOf(env, w);
    if LiveCount(w.live) > 0 {
      WrittenResumes(env.f, env.hash, w.live.value.ps, w.live.value.start);
      BackwardIsForward(env.f.resume, TextOf(env, w.live.value), chunk);
    }
  }

  lemma RestartOnlyChain<P>(env: Env<P>, w: World<P>, chunk: nat)
    requires chunk > 0
    ensures var v := RestartStep(env, w, chunk);
            && v == w.(chain := v.chain)
            && FilesMatch(env, v) == FilesMatch(env, w) && HistoryMatches(env, v) == HistoryMatches(env, w)
            && ManifestMatches(env, v) == ManifestMatches(env, w)
            && (SignedMatch(env, w) ==> SignedMatch(env, v))
  {
    hide LiveAt, FromCandidates, Window, LiveHere, ClosedHere, InPlace, Manifested, SignedMatch, EventsOf;
    var v := RestartStep(env, w, chunk);
    if SignedMatch(env, w) {
      assert PiecesGrow(env, w, v);
      SignedFrame(env, w, v);
    }
  }

  // ----- sealing

  /** Sealing every closed file in order leaves a manifest of exactly those files, the old one its prefix. */
  lemma {:induction false} AdoptSeals<P(!new)>(env: Env<P>, w: World<P>, entries: seq<Entry>, i: nat, now: string)
    requires Faithful(env.f) && PathsAgree(env.layout) && FilesMatch(env, w) && HistoryMatches(env, w) && NoRepeats(w.written)
    requires Manifested(env, w.disk.files, w.closed, entries) && i <= |entries|
    ensures var all := Adopted(KitOf(env), w.disk.files, entries, PathsOf(env.layout, w.closed)[i..], now);
            Manifested(env, w.disk.files, w.closed, all) && |all| == |w.closed| && entries <= all
    decreases |w.closed| - i
  {
    hide FilesMatch, HistoryMatches, Manifested, Sealed, NoRepeats, PathsAgree;
    var paths, k := PathsOf(env.layout, w.closed), KitOf(env);
    ManifestedSize(env, w, entries);
    if i < |w.closed| {
      var once := Sealed(k, w.disk.files, entries, paths[i], now);
      assert paths[i..][0] == paths[i] && paths[i..][1..] == paths[i + 1..];
      AdoptOne(env, w, entries, i, now);
      AdoptSeals(env, w, once, i + 1, now);
    } else {
      assert paths[i..] == [];
    }
  }

  lemma ManifestedSize<P>(env: Env<P>, w: World<P>, entries: seq<Entry>)
    requires Manifested(env, w.disk.files, w.closed, entries)
    ensures |entries| <= |w.closed|
  {
  }

  lemma AdoptOne<P(!new)>(env: Env<P>, w: World<P>, entries: seq<Entry>, i: nat, now: string)
    requires Faithful(env.f) && PathsAgree(env.layout) && FilesMatch(env, w) && HistoryMatches(env, w) && NoRepeats(w.written)
    requires Manifested(env, w.disk.files, w.closed, entries) && i <= |entries| && i < |w.closed|
    ensures var once := Sealed(KitOf(env), w.disk.files, entries, ClosedPath(env.layout, w.closed[i].name), now);
            Manifested(env, w.disk.files, w.closed, once) && i < |once| && entries <= once
  {
    hide FilesMatch, HistoryMatches, ClosedName, NoRepeats, PathsAgree, ShapeAt, InPlace, ClosedAt, ClosedPath, Resolve, SegmentPath,
      NewEntry, ManifestProblems, Faithful;
    var c, k, path := w.closed[i], KitOf(env), ClosedPath(env.layout, w.closed[i].name);
    ClosedFacts(env, w, i);
    assert Resolve(env.layout, path) == ClosedAt(env.layout, c.name) by { ResolveClosed(env.layout, c.name); }
    ClosedShape(env, w.disk.files, w.written, c);
    var s := ShapeAt(k, w.disk.files, ClosedAt(env.layout, c.name)).value;
    if i < |entries| {
      EntryShape(env, w, entries, i);
      assert Finals(entries)[i] == s.finalHash;
    } else {
      NotSealedYet(env, w, entries, i);
      EntryFinds(env.layout, c.name);
      SealKeepsClean(k, w.disk.files, entries, path, now);
      NewEntryPath(k, entries, path, s, now);
    }
  }

  lemma ResolveClosed(l: Layout, name: string)
    ensures Resolve(l, ClosedPath(l, name)) == ClosedAt(l, name)
  {
  }

  lemma NewEntryPath(k: Kit, entries: seq<Entry>, path: string, s: Summary, now: string)
    ensures NewEntry(k, entries, path, s, now).path == path
  {
    hide EntryText;
  }

  lemma ClosedFacts<P>(env: Env<P>, w: World<P>, i: nat)
    requires FilesMatch(env, w) && HistoryMatches(env, w) && i < |w.closed|
    ensures ClosedHere(env, w.disk.files, w.closed[i]) && InPlace(env, w.written, w.closed[i])
    ensures ClosedName(env.layout.base, w.closed[i].name)
    ensures forall j | 0 <= j < i :: LastPlace(w.closed[j]) < LastPlace(w.closed[i])
    ensures LastPlace(w.closed[i]) < Before(w.written, w.live)
  {
    hide ClosedName, ClosedAt, TextOf, EventsOf, Discovered;
    assert ClosedHere(env, w.disk.files, w.closed[i]);
  }

  /** With no hash repeated, no entry so far carries the final hash of the next closed file. */
  lemma NotSealedYet<P(!new)>(env: Env<P>, w: World<P>, entries: seq<Entry>, i: nat)
    requires Faithful(env.f) && PathsAgree(env.layout) && FilesMatch(env, w) && HistoryMatches(env, w) && NoRepeats(w.written)
    requires Manifested(env, w.disk.files, w.closed, entries) && |entries| == i < |w.closed|
    ensures 0 <= LastPlace(w.closed[i]) < |w.written|
    ensures w.written[LastPlace(w.closed[i])].integrity.hash !in Finals(entries)
  {
    hide FilesMatch, HistoryMatches, PathsAgree, InPlace, ClosedHere, Manifested, ClosedName, SegmentPath, ClosedAt, ShapeAt;
    ClosedFacts(env, w, i);
    ClosedShape(env, w.disk.files, w.written, w.closed[i]);
    forall j | 0 <= j < |entries|
      ensures entries[j].finalHash != w.written[LastPlace(w.closed[i])].integrity.hash
    {
      EntryShape(env, w, entries, j);
    }
  }

  // ----- anchor

  /** A pass either signs nothing, or seals and records one more checkpoint. */
  lemma AnchorCases(k: Kit, t: Trust, disk: Disk, now: string, s: Submission)
    ensures var d, sealed := AnchorPass(k, t, disk, now, s), SealedDisk(k, disk, now);
            if LiveAt(k) in disk.files && (ShapeAt(k, disk.files, LiveAt(k)).Some? || sealed.manifest != []) then
              d == Recorded(k, t, sealed, NextCheckpoint(k, t, sealed, now), s) && |d.anchors| == |disk.anchors| + 1
              && d.manifest == sealed.manifest
            else
              d.anchors == disk.anchors && d.proofs == disk.proofs && d.hasKey == disk.hasKey
  {
    hide Adopted, Discovered, CheckpointText, Composite, ShapeAt;
  }
}
