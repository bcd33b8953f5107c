/** What the run theorems ask of the layout is needed: where paths do not agree, a short honest run is
    reported as missing a segment. */
module HonestPaths {
  import opened Text
  import opened Chain
  import opened RecordFiles
  import opened Rotation
  import opened Anchor
  import opened HonestWorld
  import opened HonestSteps
  import opened HonestVerdict

  // ----- an entry is looked up where no file of the run stands

  /** The last component of a path is the text behind its last slash. */
  lemma LastPart(x: string, n: string, y: string, m: string)
    requires '/' !in n && '/' !in m && x + ("/" + n) == y + ("/" + m)
    ensures n == m
  {
    var s := x + ("/" + n);
    SlashFree(x, n);
    SlashFree(y, m);
    assert s[|x|] == '/' && s[|y|] == '/';
    assert s[|x| + 1..] == n && s[|y| + 1..] == m;
  }

  lemma SlashFree(x: string, n: string)
    requires '/' !in n
    ensures var s := x + ("/" + n); forall k | |x| < k < |s| :: s[k] != '/'
  {
    var s := x + ("/" + n);
    forall k | |x| < k < |s|
      ensures s[k] != '/'
    {
      assert s[k] == n[k - |x| - 1];
    }
  }

  lemma SegmentPathEnds(l: Layout, name: string) returns (home: string)
    requires l.cwd != "" && name != "" && '/' !in name && !IsAbsolute(l.dir)
    ensures SegmentPath(l, ClosedPath(l, name)) == home + ("/" + name)
  {
    var p := ClosedPath(l, name);
    assert name[0] in name;
    if l.dir != "" { assert p[0] == l.dir[0] && p == l.dir + ("/" + name); }
    var q := Under(l.manifestDir, p);
    home := if l.dir == "" then "" else "/" + l.dir;
    if l.manifestDir != "" {
      assert q[0] == l.manifestDir[0];
      assert q == (l.manifestDir + home) + ("/" + name);
      home := l.manifestDir + home;
      if !IsAbsolute(q) {
        assert Resolve(l, q) == (l.cwd + "/" + home) + ("/" + name);
        home := l.cwd + "/" + home;
      }
    } else {
      assert Resolve(l, q) == (l.cwd + home) + ("/" + name);
      home := l.cwd + home;
    }
  }

  lemma ClosedAtEnds(l: Layout, name: string) returns (home: string)
    requires l.cwd != "" && name != "" && '/' !in name && !IsAbsolute(l.dir)
    ensures ClosedAt(l, name) == home + ("/" + name)
  {
    var p := ClosedPath(l, name);
    assert name[0] in name;
    if l.dir == "" {
      home := l.cwd;
      assert ClosedAt(l, name) == home + ("/" + name);
    } else {
      assert p[0] == l.dir[0];
      home := l.cwd + "/" + l.dir;
      assert ClosedAt(l, name) == home + ("/" + name);
    }
  }

  /** The names of the audit file and a closed one are single components. */
  predicate Component(l: Layout, name: string) { ClosedName(l.base, name) && '/' !in name }

  lemma LookedUpElsewhere<P>(env: Env<P>, name: string)
    requires Proper(env.layout) && !PathsAgree(env.layout) && Component(env.layout, name)
    ensures var at := SegmentPath(env.layout, ClosedPath(env.layout, name));
            at != LiveAt(KitOf(env)) && at != ClosedAt(env.layout, name)
  {
    var l := env.layout;
    assert name[0] == l.base[0] && name[..|l.base|] == l.base;
    assert '/' !in l.base;
    SegmentPathFindsFile(l, name);
    var x := SegmentPathEnds(l, name);
    var y := ClosedAtEnds(l, l.base);
    if SegmentPath(l, ClosedPath(l, name)) == LiveAt(KitOf(env)) { LastPart(x, name, y, l.base); }
  }

  // ----- the run

  /** One record is written, the file is rotated and a new one begun, and a pass seals the closed one. */
  function Rotated<P>(p: P, name: string, now: string, s: Submission): seq<Op<P>> { [Append(p), Rotate(name, true), Anchor(now, s)] }

  lemma RunOfThree<P>(env: Env<P>, p: P, name: string, now: string, s: Submission)
    ensures Run(env, Boot<P>(), Rotated(p, name, now, s))
         == AnchorStep(env, RotateStep(env, AppendStep(env, Boot<P>(), p), name, true), now, s)
  {
    hide AppendStep, RotateStep, AnchorStep;
    var ops := Rotated(p, name, now, s);
    var w := AppendStep(env, Boot<P>(), p);
    var v := RotateStep(env, w, name, true);
    assert ops[1..] == [Rotate(name, true), Anchor(now, s)] && ops[1..][1..] == [Anchor(now, s)] && ops[1..][1..][1..] == [];
    assert Run(env, Boot<P>(), ops) == Run(env, w, ops[1..]) == Run(env, v, ops[1..][1..]);
    assert Run(env, v, ops[1..][1..]) == Run(env, AnchorStep(env, v, now, s), []);
  }

  /** The disk after the record and the rotation holds the closed file and an empty live one. */
  ghost predicate OneClosed<P>(env: Env<P>, w: World<P>, p: P, name: string) {
    var k := KitOf(env);
    && w.disk.listing == [name] && w.disk.manifest == [] && w.written == [ChainEvent(env.hash, env.f.canon(p), FRESH)]
    && w.disk.files.Keys == {LiveAt(k), ClosedAt(env.layout, name)}
    && w.disk.files[LiveAt(k)] == "" && ShapeAt(k, w.disk.files, ClosedAt(env.layout, name)).Some?
  }

  lemma FirstRecord<P(!new)>(env: Env<P>, p: P)
    requires Faithful(env.f)
    ensures var w := AppendStep(env, Boot<P>(), p);
            && w.disk == Boot<P>().disk.(files := map[LiveAt(KitOf(env)) := TextOf(env, Piece(FRESH, [p]))])
            && w.written == [ChainEvent(env.hash, env.f.canon(p), FRESH)]
    ensures Shape(Events(env.f.read, TextOf(env, Piece(FRESH, [p])))).Some?
  {
    hide HashMaterial, LiveAt, Events;
    var piece := Piece(FRESH, [p]);
    var line := env.f.render(p, ChainEvent(env.hash, env.f.canon(p), FRESH).integrity);
    PieceShape(env, piece);
    assert [p][1..] == [];
    assert LinesFrom(env.f, env.hash, [p], FRESH) == [line];
    JoinOne(line);
    assert "" + line + [LF] == line + [LF];
  }

  lemma AfterRotation<P(!new)>(env: Env<P>, p: P, name: string)
    requires Faithful(env.f) && Proper(env.layout) && ClosedName(env.layout.base, name)
    ensures OneClosed(env, RotateStep(env, AppendStep(env, Boot<P>(), p), name, true), p, name)
  {
    hide AppendStep, LiveAt, ClosedAt, ClosedName, TextOf, Events, ChainEvent;
    FirstRecord(env, p);
    Apart(env, name);
  }

  lemma Apart<P>(env: Env<P>, name: string)
    requires Proper(env.layout) && ClosedName(env.layout.base, name)
    ensures ClosedAt(env.layout, name) != LiveAt(KitOf(env))
  {
    NamesApart(env.layout, name, env.layout.base);
    assert |name| > |env.layout.base|;
  }

  /** The pass seals the closed file, and the manifest layer then looks for it in the wrong place. */
  lemma PassReportsMissing<P(!new)>(env: Env<P>, w: World<P>, p: P, name: string, now: string, s: Submission)
    requires OneClosed(env, w, p, name) && Proper(env.layout) && !PathsAgree(env.layout) && Component(env.layout, name)
    ensures Verdict(KitOf(env), env.t, AnchorStep(env, w, now, s).disk).linked == [SegmentMissing(0)]
    ensures AnchorStep(env, w, now, s).written == w.written
  {
    hide LiveAt, ClosedAt, ClosedName, PathsAgree, Events, CheckpointText, SegmentPath, ClosedPath, Resolve, Composite, EntryText,
      ChainProblems, AnchorProblems, Unsealed, ManifestProblems;
    var k, files := KitOf(env), w.disk.files;
    LookedUpElsewhere(env, name);
    DiscoveredOne(k, files, name);
    ResolveClosed(env.layout, name);
    var path := ClosedPath(env.layout, name);
    SealReportsMissing(k, files, path, now);
    AnchorCases(k, env.t, w.disk, now, s);
    assert [path][1..] == [];
    assert Adopted(k, files, [], [path], now) == Sealed(k, files, [], path, now);
  }

  /** Where the layout's two ways of resolving a path disagree, this run is reported tampered with. */
  lemma FalseAlarm<P(!new)>(env: Env<P>, p: P, name: string, now: string, s: Submission)
    requires Faithful(env.f) && Proper(env.layout) && !PathsAgree(env.layout) && Component(env.layout, name)
    ensures var w := Run(env, Boot<P>(), Rotated(p, name, now, s));
            Verdict(KitOf(env), env.t, w.disk).linked == [SegmentMissing(0)] && Fresh(env, w)
  {
    hide AppendStep, RotateStep, AnchorStep, Run, PathsAgree, ClosedName, Verdict, OneClosed;
    RunOfThree(env, p, name, now, s);
    AfterRotation(env, p, name);
    var v := RotateStep(env, AppendStep(env, Boot<P>(), p), name, true);
    PassReportsMissing(env, v, p, name, now, s);
    OneIsFresh(env, v, AnchorStep(env, v, now, s), p, name);
  }

  lemma OneIsFresh<P>(env: Env<P>, v: World<P>, w: World<P>, p: P, name: string)
    requires OneClosed(env, v, p, name) && w.written == v.written
    ensures Fresh(env, w)
  {
    hide ChainEvent, Material, LiveAt, ClosedAt;
  }

  /** No run of fresh records is ever reported tampered with. */
  ghost predicate NeverAlarmed<P(!new)>(env: Env<P>) {
    forall ops: seq<Op<P>> | Fresh(env, Run(env, Boot<P>(), ops)) :: Untampered(env, Run(env, Boot<P>(), ops))
  }

  /** Honest runs never look tampered with exactly when the audit directory is absolute or the manifest lies in
      the working directory. */
  lemma NeverAlarmedExactly<P(!new)>(env: Env<P>, p: P)
    requires Faithful(env.f) && Signs(env.t) && Proper(env.layout) && '/' !in env.layout.base
    ensures NeverAlarmed(env) <==> IsAbsolute(env.layout.dir) || ManifestHome(env.layout) == env.layout.cwd
  {
    hide Run, Fresh, Untampered, Signs, ManifestHome, Verdict, Rotated;
    if PathsAgree(env.layout) {
      forall ops: seq<Op<P>> | Fresh(env, Run(env, Boot<P>(), ops))
        ensures Untampered(env, Run(env, Boot<P>(), ops))
      {
        HonestRunsNeverLookTampered(env, ops);
      }
    } else {
      var name := env.layout.base + ".1";
      assert name[|name| - 1] == '1' && env.layout.base + "." <= name;
      FalseAlarm(env, p, name, "", Unreachable);
      MissingIsTampered(env, Run(env, Boot<P>(), Rotated(p, name, "", Unreachable)));
    }
  }

  lemma MissingIsTampered<P>(env: Env<P>, w: World<P>)
    requires Verdict(KitOf(env), env.t, w.disk).linked == [SegmentMissing(0)]
    ensures !Untampered(env, w)
  {
    hide Verdict;
  }
}
