/** The Go verifier's manifest layer (verifier/manifest.go) beside the TypeScript one: the same problems for the
    same entries, and sealed files told by base name where TypeScript tells them by path. */
module IndependentManifest {
  import opened Wrappers
  import opened Text
  import opened Chain
  import opened Rotation
  import opened Anchor
  import opened RecordFiles
  import opened HonestWorld
  import opened HonestSteps
  import opened HonestVerdict

  // ----- entries

  /** manifestEntryMaterial: an entry's source lexemes in the fixed order. */
  function EntryMaterial(path: string, count: string, firstIndex: string, lastIndex: string, finalHash: string,
                         previous: string, sealedAt: string): string {
    "{\"path\":" + (path + ("," + (
      ("\"count\":" + (count + [','] + ("\"firstIndex\":" + (firstIndex + [','] + ("\"lastIndex\":" + (lastIndex + [',']))))))
      + ("\"finalHash\":" + (finalHash + (",\"previousSegmentHash\":" + (previous + (",\"sealedAt\":" + (sealedAt + "}")))))))))
  }

  /** The material of an entry as the writer wrote it. */
  function MaterialOf(e: Entry): string {
    EntryMaterial(Quote(e.path), Integer(e.count), Integer(e.firstIndex), Integer(e.lastIndex), Quote(e.finalHash),
                  QuoteOrNull(e.previousSegmentHash), Quote(e.sealedAt))
  }

  lemma EntryMaterialIsEntryText(e: Entry)
    ensures MaterialOf(e) == EntryText(e)
  {
    hide Quote, QuoteOrNull, Integer;
  }

  datatype Code = ManifestEntryHash(i: nat) | ManifestLinkBreak(i: nat) | SegmentGone(i: nat) | SegmentContentMismatch(i: nat)

  /** What this verifier calls a problem of the other one: it does not say which fields of a file differ. */
  function CodeOf(p: ManifestProblem): Code {
    match p
    case EntryHashMismatch(i) => ManifestEntryHash(i)
    case LinkBroken(i) => ManifestLinkBreak(i)
    case ContentMismatch(i, _) => SegmentContentMismatch(i)
    case SegmentMissing(i) => SegmentGone(i)
  }

  function Codes(ps: seq<ManifestProblem>): seq<Code> { seq(|ps|, i requires 0 <= i < |ps| => CodeOf(ps[i])) }

  lemma CodesConcat(a: seq<ManifestProblem>, b: seq<ManifestProblem>)
    ensures Codes(a + b) == Codes(a) + Codes(b)
  {
  }

  // ----- sealed files, by name

  /** filepath.Base, of a path that does not end in a slash. */
  function Base(path: string): string
    decreases path
  {
    if '/' !in path then path else Base(path[1..])
  }

  function Bases(entries: seq<Entry>): set<string> { set i | 0 <= i < |entries| :: Base(entries[i].path) }

  /** Closed files found whose base name no entry has. */
  function UnsealedByName(found: seq<string>, sealed: set<string>): nat {
    if found == [] then 0 else (if Base(found[0]) in sealed then 0 else 1) + UnsealedByName(found[1..], sealed)
  }

  datatype Layer = Layer(problems: seq<Code>, unsealed: nat, heads: seq<string>)

  // ----- the layer

  /** One entry: its hash, its link, and the file it names. The link of a later entry is compared with the hash
      before it, the first one's with null. */
  method CheckEntry(k: Kit, files: Files, e: Entry, i: nat, prevFinal: string) returns (problems: seq<Code>)
    ensures problems == Codes(EntryProblems(k, files, e, i, if i == 0 then None else Some(prevFinal)))
  {
    hide EntryText, MaterialOf, Shape, SegmentPath, Events;
    EntryMaterialIsEntryText(e);
    problems := [];
    if k.hash(MaterialOf(e)) != e.entryHash { problems := problems + [ManifestEntryHash(i)]; }
    if i == 0 {
      if e.previousSegmentHash.Some? { problems := problems + [ManifestLinkBreak(i)]; }
    } else if e.previousSegmentHash.None? || e.previousSegmentHash.value != prevFinal {
      problems := problems + [ManifestLinkBreak(i)];
    }
    var content := CheckContent(k, files, e, i);
    problems := problems + content;
    ghost var hashed := if k.hash(EntryText(e)) != e.entryHash then [EntryHashMismatch(i)] else [];
    ghost var linked := if e.previousSegmentHash != (if i == 0 then None else Some(prevFinal)) then [LinkBroken(i)] else [];
    CodesConcat(hashed, linked);
    CodesConcat(hashed + linked, ContentProblems(k, files, e, i));
    assert problems == Codes(hashed) + Codes(linked) + content;
  }

  /** The file an entry names: there, readable, and of the committed count, range and final hash. */
  method CheckContent(k: Kit, files: Files, e: Entry, i: nat) returns (problems: seq<Code>)
    ensures problems == Codes(ContentProblems(k, files, e, i))
  {
    hide Events, SegmentPath;
    var resolved := SegmentPath(k.layout, e.path);
    if resolved !in files { return [SegmentGone(i)]; }
    var s := SummarizeSegment(k.read, files[resolved]);
    if s.None? || s.value.count != e.count || s.value.firstIndex != e.firstIndex || s.value.lastIndex != e.lastIndex
       || s.value.finalHash != e.finalHash {
      return [SegmentContentMismatch(i)];
    }
    return [];
  }

  /** verifyManifest: the entries in order, then the files found beside the live one. */
  method VerifyLayer(k: Kit, files: Files, entries: seq<Entry>, found: seq<string>) returns (layer: Layer)
    ensures layer.problems == Codes(ManifestProblems(k, files, entries))
    ensures layer.unsealed == UnsealedByName(found, Bases(entries))
    ensures layer.heads == Finals(entries)
  {
    hide EntryProblems, ManifestProblems, RecordTotal, Codes, Base;
    var problems: seq<Code> := [];
    var heads: seq<string> := [];
    var sealed: set<string> := {};
    var prevFinal := "";
    assert entries[..0] == [];
    NothingToReport(k, files);
    NoCodes();
    for i := 0 to |entries|
      invariant problems == Codes(ManifestProblems(k, files, entries[..i]))
      invariant heads == Finals(entries[..i]) && sealed == Bases(entries[..i])
      invariant i > 0 ==> prevFinal == entries[i - 1].finalHash
    {
      var e := entries[i];
      sealed := sealed + {Base(e.path)};
      var found := CheckEntry(k, files, e, i, prevFinal);
      OneMoreEntry(k, files, entries, i);
      CodesConcat(ManifestProblems(k, files, entries[..i]), EntryProblems(k, files, e, i, Head(entries[..i])));
      problems := problems + found;
      prevFinal := e.finalHash;
      heads := heads + [e.finalHash];
      OneMoreName(entries, i);
    }
    assert entries[..|entries|] == entries;
    var unsealed := 0;
    assert found[0..] == found;
    for i := 0 to |found|
      invariant unsealed + UnsealedByName(found[i..], sealed) == UnsealedByName(found, sealed)
    {
      assert found[i..][1..] == found[i + 1..] && found[i..][0] == found[i];
      if Base(found[i]) !in sealed { unsealed := unsealed + 1; }
    }
    return Layer(problems, unsealed, heads);
  }

  lemma NoCodes()
    ensures Codes([]) == []
  {
  }

  lemma OneMoreName(entries: seq<Entry>, i: nat)
    requires i < |entries|
    ensures Bases(entries[..i + 1]) == Bases(entries[..i]) + {Base(entries[i].path)}
    ensures Finals(entries[..i + 1]) == Finals(entries[..i]) + [entries[i].finalHash]
  {
    hide Base;
    forall b
      ensures b in Bases(entries[..i + 1]) <==> b in Bases(entries[..i]) + {Base(entries[i].path)}
    {
      if b in Bases(entries[..i + 1]) {
        var j :| 0 <= j < i + 1 && b == Base(entries[..i + 1][j].path);
        if j < i { assert entries[..i][j] == entries[j]; }
      }
      if b in Bases(entries[..i]) {
        var j :| 0 <= j < i && b == Base(entries[..i][j].path);
        assert entries[..i + 1][j] == entries[j];
      }
      if b == Base(entries[i].path) { assert entries[..i + 1][i] == entries[i]; }
    }
  }

  // ----- by name and by path

  lemma {:induction false} BaseBehind(x: string, p: string)
    ensures Base(x + ("/" + p)) == Base(p)
    decreases |x|
  {
    var s := x + ("/" + p);
    assert s[|x|] == '/';
    if x == "" { assert s[1..] == p; } else { assert s[1..] == x[1..] + ("/" + p); BaseBehind(x[1..], p); }
  }

  lemma BaseUnder(dir: string, p: string)
    ensures Base(Under(dir, p)) == Base(p)
  {
    hide Base;
    if dir != "" {
      BaseBehind(dir, p);
      assert Under(dir, p) == dir + ("/" + p);
    }
  }

  /** However a path is resolved, its last component stays. */
  lemma BaseResolved(l: Layout, p: string)
    ensures Base(Resolve(l, p)) == Base(p) && Base(SegmentPath(l, p)) == Base(p)
  {
    hide Base, Under;
    BaseUnder(l.cwd, p);
    BaseUnder(l.manifestDir, p);
    BaseUnder(l.cwd, Under(l.manifestDir, p));
  }

  /** A found file whose name an entry has, while no entry leads to it. */
  predicate NamesakeOnly(k: Kit, entries: seq<Entry>, path: string) {
    Base(path) in Bases(entries) && Resolve(k.layout, path) !in SegmentPaths(k, entries)
  }

  predicate NoNamesakes(k: Kit, entries: seq<Entry>, found: seq<string>) { forall p | p in found :: !NamesakeOnly(k, entries, p) }

  lemma NoneAtAll(k: Kit, entries: seq<Entry>)
    ensures NoNamesakes(k, entries, [])
  {
  }

  lemma NamesakesStep(k: Kit, entries: seq<Entry>, found: seq<string>)
    requires found != []
    ensures NoNamesakes(k, entries, found) <==> !NamesakeOnly(k, entries, found[0]) && NoNamesakes(k, entries, found[1..])
  {
    hide NamesakeOnly;
    assert forall p :: p in found <==> p == found[0] || p in found[1..];
  }

  /** What is sealed by path is sealed by name. */
  lemma PathThenName(k: Kit, entries: seq<Entry>, path: string)
    requires Resolve(k.layout, path) in SegmentPaths(k, entries)
    ensures Base(path) in Bases(entries)
  {
    hide Base, Resolve, SegmentPath;
    var i :| 0 <= i < |entries| && SegmentPath(k.layout, entries[i].path) == Resolve(k.layout, path);
    BaseResolved(k.layout, path);
    BaseResolved(k.layout, entries[i].path);
  }

  /** The two layers find the same problems in the entries of any manifest on any disk. This one counts no more
      unsealed files than the other, and as many exactly when no file found shares its name only with an entry that
      leads elsewhere. */
  lemma {:induction false} UnsealedAgreesExactly(k: Kit, entries: seq<Entry>, found: seq<string>)
    ensures UnsealedByName(found, Bases(entries)) <= |StillOpen(k, found, SegmentPaths(k, entries))|
    ensures UnsealedByName(found, Bases(entries)) == |StillOpen(k, found, SegmentPaths(k, entries))|
       <==> NoNamesakes(k, entries, found)
    decreases found
  {
    hide Base, Bases, Resolve, SegmentPaths, NoNamesakes;
    if found == [] {
      assert NoNamesakes(k, entries, []) by { NoneAtAll(k, entries); }
    } else {
      UnsealedAgreesExactly(k, entries, found[1..]);
      if Resolve(k.layout, found[0]) in SegmentPaths(k, entries) { PathThenName(k, entries, found[0]); }
      NamesakesStep(k, entries, found);
    }
  }

  /** The verdicts of the two layers over one disk. */
  predicate LayerClean(k: Kit, disk: Disk) {
    && Codes(ManifestProblems(k, disk.files, disk.manifest)) == []
    && UnsealedByName(Discovered(k, disk.files, disk.listing), Bases(disk.manifest)) == 0
  }

  /** A manifest layer clean for the TypeScript verifier is clean for this one; the converse fails exactly when
      everything else is in order and some file found is only a namesake of a sealed one. */
  lemma LayersAgreeExactly(k: Kit, disk: Disk)
    ensures var found := Discovered(k, disk.files, disk.listing);
            && (ManifestProblems(k, disk.files, disk.manifest) == [] && Unsealed(k, disk) == 0
                <==> LayerClean(k, disk) && NoNamesakes(k, disk.manifest, found))
  {
    hide Base, Bases, Resolve, SegmentPaths, ManifestProblems, Discovered, StillOpen, UnsealedByName, NoNamesakes;
    var found := Discovered(k, disk.files, disk.listing);
    UnsealedAgreesExactly(k, disk.manifest, found);
    assert |Codes(ManifestProblems(k, disk.files, disk.manifest))| == |ManifestProblems(k, disk.files, disk.manifest)|;
  }

  // ----- on honest runs

  /** File names hold no slash. */
  predicate PlainNames<P>(w: World<P>) { forall i | 0 <= i < |w.closed| :: '/' !in w.closed[i].name }

  lemma HonestNoNamesakes<P>(env: Env<P>, w: World<P>)
    requires PathsAgree(env.layout) && FilesMatch(env, w) && ManifestMatches(env, w) && PlainNames(w)
    ensures NoNamesakes(KitOf(env), w.disk.manifest, Discovered(KitOf(env), w.disk.files, w.disk.listing))
  {
    hide PathsAgree, LiveHere, ClosedName, Discovered, SegmentPath, ManifestProblems, TextOf, Resolve, Base, ClosedPath, ClosedAt;
    var k, entries := KitOf(env), w.disk.manifest;
    var found := Discovered(k, w.disk.files, w.disk.listing);
    forall p | p in found
      ensures !NamesakeOnly(k, entries, p)
    {
      var i :| 0 <= i < |found| && found[i] == p;
      var name := w.closed[i].name;
      assert ClosedHere(env, w.disk.files, w.closed[i]);
      NameOfClosed(env.layout, name);
      if Base(p) in Bases(entries) {
        var j :| 0 <= j < |entries| && Base(p) == Base(entries[j].path);
        NameOfClosed(env.layout, w.closed[j].name);
        EntryFinds(env.layout, name);
        ResolveClosed(env.layout, name);
        assert i == j && SegmentPaths(k, entries)[j] == Resolve(k.layout, p);
      }
    }
  }

  lemma NameOfClosed(l: Layout, name: string)
    requires '/' !in name
    ensures Base(ClosedPath(l, name)) == name
  {
    hide Under;
    BaseUnder(l.dir, name);
  }

  /** After an honest run this layer is clean as well, exactly when the manifest has caught up with the rotations. */
  lemma HonestRunsLayerClean<P(!new)>(env: Env<P>, ops: seq<Op<P>>)
    requires Faithful(env.f) && PathsAgree(env.layout) && Signs(env.t) && Fresh(env, Run(env, Boot<P>(), ops))
    requires PlainNames(Run(env, Boot<P>(), ops))
    ensures var w := Run(env, Boot<P>(), ops);
            && Codes(ManifestProblems(KitOf(env), w.disk.files, w.disk.manifest)) == []
            && (LayerClean(KitOf(env), w.disk) <==> |w.disk.manifest| == |w.closed|)
  {
    hide Run, PathsAgree, Signs, Fresh, NoRepeats, FilesMatch, HistoryMatches, ChainMatches, SignedMatch, PlainNames, ManifestProblems, Unsealed,
      LayerClean, Discovered;
    var w := Run(env, Boot<P>(), ops);
    RunHonest(env, ops);
    HonestNoNamesakes(env, w);
    UnsealedExactly(env, w);
    LayersAgreeExactly(KitOf(env), w.disk);
    NoCodes();
  }
}
