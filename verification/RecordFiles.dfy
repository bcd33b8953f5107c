/** Record files as the writer lays them out: one serialized event per terminated line. */
module RecordFiles {
  import opened Wrappers
  import opened Text
  import opened Chain
  import opened Resume

  /** How events become lines and lines become records. `P` is what the writer serializes.
      `canon` is canonicalizeAuditPayload, `render` is JSON.stringify of the chained event. */
  datatype Format<!P> = Format(
    render: (P, Integrity) -> string,
    canon: P -> string,
    read: Reader,
    resume: Resumer,
    gaps: Gaps)

  /** A line reads back as the record it was written from, and stays one nonblank line. */
  ghost predicate Faithful<P(!new)>(f: Format<P>) {
    forall p: P, i: Integrity {:trigger f.render(p, i)} ::
      var line := f.render(p, i);
      && LF !in line && !Blank(line)
      && f.read(line) == Record(Event(f.canon(p), i))
      && f.resume(line) == Some(After(Event(f.canon(p), i)))
  }

  /** The events a writer chains from `state` on, one per payload. */
  function EventsFrom<P>(f: Format<P>, hash: Hash, ps: seq<P>, state: ChainState): seq<Event> {
    if ps == [] then []
    else
      var e := ChainEvent(hash, f.canon(ps[0]), state);
      [e] + EventsFrom(f, hash, ps[1..], After(e))
  }

  function LinesFrom<P>(f: Format<P>, hash: Hash, ps: seq<P>, state: ChainState): seq<string> {
    if ps == [] then []
    else
      var e := ChainEvent(hash, f.canon(ps[0]), state);
      [f.render(ps[0], e.integrity)] + LinesFrom(f, hash, ps[1..], After(e))
  }

  function StateFrom<P>(f: Format<P>, hash: Hash, ps: seq<P>, state: ChainState): ChainState {
    if ps == [] then state else StateFrom(f, hash, ps[1..], After(ChainEvent(hash, f.canon(ps[0]), state)))
  }

  /** The bytes of a file holding `ps` chained from `state`. */
  function FileFrom<P>(f: Format<P>, hash: Hash, ps: seq<P>, state: ChainState): string {
    Join(LinesFrom(f, hash, ps, state))
  }

  lemma {:induction false} AppendOne<P>(f: Format<P>, hash: Hash, ps: seq<P>, p: P, state: ChainState)
    ensures var at := StateFrom(f, hash, ps, state);
            var e := ChainEvent(hash, f.canon(p), at);
            && EventsFrom(f, hash, ps + [p], state) == EventsFrom(f, hash, ps, state) + [e]
            && LinesFrom(f, hash, ps + [p], state) == LinesFrom(f, hash, ps, state) + [f.render(p, e.integrity)]
            && FileFrom(f, hash, ps + [p], state) == FileFrom(f, hash, ps, state) + f.render(p, e.integrity) + [LF]
            && StateFrom(f, hash, ps + [p], state) == After(e)
    decreases ps
  {
    hide ChainEvent, After, Join;
    var at := StateFrom(f, hash, ps, state);
    var e := ChainEvent(hash, f.canon(p), at);
    if ps == [] {
      assert ps + [p] == [p] && [p][1..] == [];
    } else {
      var first := ChainEvent(hash, f.canon(ps[0]), state);
      assert (ps + [p])[1..] == ps[1..] + [p] && (ps + [p])[0] == ps[0];
      AppendOne(f, hash, ps[1..], p, After(first));
    }
    JoinAppend(LinesFrom(f, hash, ps, state), [f.render(p, e.integrity)]);
    JoinOne(f.render(p, e.integrity));
  }

  // ----- reading such a file back

  function Whole(lines: seq<string>): seq<Chunk> {
    if lines == [] then [] else [Chunk(lines[0], false)] + Whole(lines[1..])
  }

  lemma {:induction false} NonblankWhole(lines: seq<string>)
    requires forall k | 0 <= k < |lines| :: !Blank(lines[k])
    ensures Nonblank(lines, false) == Whole(lines)
  {
    hide Blank;
    if lines != [] { NonblankWhole(lines[1..]); }
  }

  lemma ChunksOf(lines: seq<string>, rest: string)
    requires NoBreaks(lines) && LF !in rest
    ensures Chunks(Join(lines) + rest) == Nonblank(lines, false) + Nonblank([rest], true)
  {
    hide Nonblank, Join;
    SplitJoin(lines, rest);
    var r := lines + [rest];
    assert r[..|r| - 1] == lines && r[|r| - 1] == rest;
  }

  lemma ChunksOfJoin(lines: seq<string>)
    requires NoBreaks(lines) && forall k | 0 <= k < |lines| :: !Blank(lines[k])
    ensures Chunks(Join(lines)) == Whole(lines)
  {
    hide Chunks, Blank, Join, Nonblank, Whole, NoBreaks;
    ChunksOf(lines, "");
    assert Join(lines) + "" == Join(lines);
    NonblankWhole(lines);
    EmptyIsBlank();
  }

  lemma EmptyIsBlank()
    ensures Nonblank([""], true) == []
  {
    assert [""][1..] == [];
  }

  lemma {:induction false} LinesReadBack<P(!new)>(f: Format<P>, hash: Hash, ps: seq<P>, state: ChainState)
    requires Faithful(f)
    ensures var lines := LinesFrom(f, hash, ps, state);
            && NoBreaks(lines) && (forall k | 0 <= k < |lines| :: !Blank(lines[k]))
            && Records(f.read, Whole(lines)) == EventsFrom(f, hash, ps, state)
            && Readable(f.read, Whole(lines))
            && |lines| == |ps|
    decreases ps
  {
    if ps != [] {
      var e := ChainEvent(hash, f.canon(ps[0]), state);
      var line := f.render(ps[0], e.integrity);
      assert LF !in line && !Blank(line) && f.read(line) == Record(e);
      LinesReadBack(f, hash, ps[1..], After(e));
      var rest := Whole(LinesFrom(f, hash, ps[1..], After(e)));
      assert Whole(LinesFrom(f, hash, ps, state)) == [Chunk(line, false)] + rest;
    }
  }

  lemma {:induction false} WrittenChained<P>(f: Format<P>, hash: Hash, ps: seq<P>, state: ChainState)
    ensures ChainedFrom(hash, EventsFrom(f, hash, ps, state), Some(state))
    ensures Chained(hash, EventsFrom(f, hash, ps, state))
    decreases ps
  {
    if ps != [] {
      WrittenChained(f, hash, ps[1..], After(ChainEvent(hash, f.canon(ps[0]), state)));
    }
  }

  /** A file the writer laid out verifies, and holds exactly the events that were chained. */
  lemma WrittenVerifies<P(!new)>(f: Format<P>, hash: Hash, ps: seq<P>, state: ChainState)
    requires Faithful(f)
    ensures var v := Verified(f.read, f.gaps, hash, FileFrom(f, hash, ps, state));
            v.ok && v.problems == [] && v.records == |ps|
    ensures Events(f.read, FileFrom(f, hash, ps, state)) == EventsFrom(f, hash, ps, state)
  {
    LinesReadBack(f, hash, ps, state);
    ChunksOfJoin(LinesFrom(f, hash, ps, state));
    WholeLength(LinesFrom(f, hash, ps, state));
    WrittenChained(f, hash, ps, state);
    VerifiedExactly(f.read, f.gaps, hash, FileFrom(f, hash, ps, state));
  }

  lemma {:induction false} WholeLength(lines: seq<string>)
    ensures |Whole(lines)| == |lines|
  {
    if lines != [] { WholeLength(lines[1..]); }
  }

  lemma {:induction false} EventsLength<P>(f: Format<P>, hash: Hash, ps: seq<P>, state: ChainState)
    ensures |EventsFrom(f, hash, ps, state)| == |ps|
    ensures ps != [] ==> StateFrom(f, hash, ps, state) == After(EventsFrom(f, hash, ps, state)[|ps| - 1])
    decreases ps
  {
    if ps != [] {
      var e := ChainEvent(hash, f.canon(ps[0]), state);
      EventsLength(f, hash, ps[1..], After(e));
    }
  }

  // ----- resuming from such a file

  lemma {:induction false} FilledWhole(lines: seq<string>)
    requires forall k | 0 <= k < |lines| :: !Blank(lines[k])
    ensures Filled(lines) == lines
  {
    if lines != [] { FilledWhole(lines[1..]); }
  }

  lemma LastLine<P(!new)>(f: Format<P>, hash: Hash, ps: seq<P>, state: ChainState)
    requires Faithful(f) && ps != []
    ensures var lines := LinesFrom(f, hash, ps, state);
            |lines| == |ps| && f.resume(lines[|lines| - 1]) == Some(StateFrom(f, hash, ps, state))
  {
    var init, p := ps[..|ps| - 1], ps[|ps| - 1];
    assert ps == init + [p];
    AppendOne(f, hash, init, p, state);
    LinesReadBack(f, hash, ps, state);
    var e := ChainEvent(hash, f.canon(p), StateFrom(f, hash, init, state));
    assert f.resume(f.render(p, e.integrity)) == Some(After(e));
  }

  /** A restart resumes where the writer stopped, whatever state the file began from. */
  lemma WrittenResumes<P(!new)>(f: Format<P>, hash: Hash, ps: seq<P>, state: ChainState)
    requires Faithful(f)
    ensures var raw := FileFrom(f, hash, ps, state);
            && (raw != "" <==> ps != [])
            && (ps != [] ==> TailIntact(f.resume, raw))
            && (ps != [] ==> ForwardScan(f.resume, raw) == ChainResume(StateFrom(f, hash, ps, state), Continuous))
  {
    if ps != [] {
      var lines := LinesFrom(f, hash, ps, state);
      LastLine(f, hash, ps, state);
      LinesReadBack(f, hash, ps, state);
      ResumeJoin(f.resume, lines);
    }
  }

  lemma SplitOfJoin(lines: seq<string>)
    requires NoBreaks(lines)
    ensures Split(Join(lines)) == lines + [""]
  {
    SplitJoin(lines, "");
    assert Join(lines) + "" == Join(lines);
  }

  lemma FilledOfJoin(lines: seq<string>)
    requires forall k | 0 <= k < |lines| :: !Blank(lines[k])
    ensures Filled(lines + [""]) == lines
  {
    hide Blank;
    FilledWhole(lines);
    FilledConcat(lines, [""]);
    EmptyFilled();
  }

  lemma LastResumes(resume: Resumer, lines: seq<string>)
    requires lines != [] && resume(lines[|lines| - 1]).Some?
    ensures FromCandidates(resume, lines) == ChainResume(resume(lines[|lines| - 1]).value, Continuous)
  {
  }

  lemma JoinNotEmpty(lines: seq<string>)
    requires lines != []
    ensures Join(lines) != ""
  {
  }

  lemma JoinTail(resume: Resumer, lines: seq<string>)
    requires lines != [] && NoBreaks(lines) && (forall k | 0 <= k < |lines| :: !Blank(lines[k]))
    requires resume(lines[|lines| - 1]).Some?
    ensures TailIntact(resume, Join(lines))
  {
    hide Split, Blank, Join, NoBreaks;
    SplitOfJoin(lines);
    TailFromLines(resume, Join(lines), lines);
  }

  lemma TailFromLines(resume: Resumer, raw: string, lines: seq<string>)
    requires lines != [] && Split(raw) == lines + [""] && (forall k | 0 <= k < |lines| :: !Blank(lines[k]))
    requires resume(lines[|lines| - 1]).Some?
    ensures TailIntact(resume, raw)
  {
    hide Split, Blank;
    var r := lines + [""];
    assert r[|r| - 2] == lines[|lines| - 1];
    if |r| >= 3 { assert r[|r| - 3] == lines[|lines| - 2]; }
  }

  lemma ResumeJoin(resume: Resumer, lines: seq<string>)
    requires lines != [] && NoBreaks(lines) && (forall k | 0 <= k < |lines| :: !Blank(lines[k]))
    requires resume(lines[|lines| - 1]).Some?
    ensures Join(lines) != "" && TailIntact(resume, Join(lines))
    ensures ForwardScan(resume, Join(lines)) == ChainResume(resume(lines[|lines| - 1]).value, Continuous)
  {
    hide Split, Blank, Filled, FromCandidates, Join, NoBreaks, TailIntact;
    JoinNotEmpty(lines);
    JoinTail(resume, lines);
    SplitOfJoin(lines);
    FilledOfJoin(lines);
    LastResumes(resume, lines);
  }

  lemma EmptyFilled()
    ensures Filled([""]) == []
  {
    assert [""][1..] == [];
  }
}
