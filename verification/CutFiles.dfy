/** A record file cut at any byte, as a hard kill may leave it (verifyChainFile in src/audit/file-sink.ts). */
module CutFiles {
  import opened Wrappers
  import opened Text
  import opened Chain
  import opened RecordFiles
  import opened Rotation

  /** The beginning of a line never reads as anything. */
  ghost predicate CutsFail<P(!new)>(f: Format<P>) {
    forall p: P, i: Integrity, k: nat {:trigger f.render(p, i)[..k]} ::
      0 < k < |f.render(p, i)| ==> f.read(f.render(p, i)[..k]) == NotJson && !Blank(f.render(p, i)[..k])
  }

  function EventAt<P>(f: Format<P>, hash: Hash, ps: seq<P>, state: ChainState, m: nat): Event
    requires m < |ps|
  {
    ChainEvent(hash, f.canon(ps[m]), StateFrom(f, hash, ps[..m], state))
  }

  function LineAt<P>(f: Format<P>, hash: Hash, ps: seq<P>, state: ChainState, m: nat): string
    requires m < |ps|
  {
    f.render(ps[m], EventAt(f, hash, ps, state, m).integrity)
  }

  /** One more record. */
  lemma UpTo<P>(f: Format<P>, hash: Hash, ps: seq<P>, state: ChainState, m: nat)
    requires m < |ps|
    ensures FileFrom(f, hash, ps[..m + 1], state) == FileFrom(f, hash, ps[..m], state) + LineAt(f, hash, ps, state, m) + [LF]
    ensures EventsFrom(f, hash, ps[..m + 1], state) == EventsFrom(f, hash, ps[..m], state) + [EventAt(f, hash, ps, state, m)]
  {
    hide FileFrom, EventsFrom, StateFrom, ChainEvent;
    assert ps[..m + 1] == ps[..m] + [ps[m]];
    AppendOne(f, hash, ps[..m], ps[m], state);
  }

  /** A cut leaves whole lines and the beginning of the next. */
  lemma {:induction false} CutAt<P>(f: Format<P>, hash: Hash, ps: seq<P>, state: ChainState, n: nat, top: nat) returns (m: nat, frag: string)
    requires top <= |ps| && n <= |FileFrom(f, hash, ps[..top], state)|
    ensures m <= top && FileFrom(f, hash, ps[..top], state)[..n] == FileFrom(f, hash, ps[..m], state) + frag
    ensures frag != "" ==> m < top && |frag| <= |LineAt(f, hash, ps, state, m)| && frag == LineAt(f, hash, ps, state, m)[..|frag|]
    decreases top
  {
    hide FileFrom, LineAt;
    if top == 0 {
      NoFile(f, hash, ps, state);
      m, frag := 0, "";
    } else {
      UpTo(f, hash, ps, state, top - 1);
      var before, line := FileFrom(f, hash, ps[..top - 1], state), LineAt(f, hash, ps, state, top - 1);
      CutOfThree(before, line, n);
      if n <= |before| {
        m, frag := CutAt(f, hash, ps, state, n, top - 1);
      } else if n == |before| + |line| + 1 {
        m, frag := top, "";
        assert FileFrom(f, hash, ps[..top], state) + "" == FileFrom(f, hash, ps[..top], state);
      } else {
        m, frag := top - 1, line[..n - |before|];
      }
    }
  }

  lemma CutOfThree(before: string, line: string, n: nat)
    requires n <= |before| + |line| + 1
    ensures var whole := before + line + [LF];
            && (n <= |before| ==> whole[..n] == before[..n])
            && (|before| <= n <= |before| + |line| ==> whole[..n] == before + line[..n - |before|])
            && (n == |before| + |line| + 1 ==> whole[..n] == whole)
  {
  }

  lemma NoFile<P>(f: Format<P>, hash: Hash, ps: seq<P>, state: ChainState)
    ensures FileFrom(f, hash, ps[..0], state) == ""
  {
  }

  lemma {:induction false} NotesAppend(read: Reader, gaps: Gaps, a: seq<Chunk>, b: seq<Chunk>, n: nat)
    ensures Notes(read, gaps, a + b, n) == Notes(read, gaps, a, n) + Notes(read, gaps, b, n + |a|)
    decreases a
  {
    hide LineNotes;
    if a == [] {
      assert a + b == b;
    } else {
      assert (a + b)[1..] == a[1..] + b;
      NotesAppend(read, gaps, a[1..], b, n + 1);
    }
  }

  lemma OneChunk(read: Reader, gaps: Gaps, c: Chunk, n: nat)
    ensures Notes(read, gaps, [c], n) == LineNotes(read, gaps, c, n)
    ensures Records(read, [c]) == match read(c.text) case Record(e) => [e] case _ => []
  {
    assert [c][1..] == [];
  }

  /** The chunks of whole lines and a fragment. */
  lemma FragmentChunks<P(!new)>(f: Format<P>, hash: Hash, ps: seq<P>, state: ChainState, frag: string)
    requires Faithful(f) && LF !in frag && !Blank(frag)
    ensures Chunks(FileFrom(f, hash, ps, state) + frag) == Chunks(FileFrom(f, hash, ps, state)) + [Chunk(frag, true)]
    ensures |Chunks(FileFrom(f, hash, ps, state))| == |ps|
  {
    hide Blank, Chunks, Nonblank, Whole, NoBreaks;
    var lines := LinesFrom(f, hash, ps, state);
    LinesReadBack(f, hash, ps, state);
    ChunksOfJoin(lines);
    NonblankWhole(lines);
    ChunksOf(lines, frag);
    WholeLength(lines);
    OneNonblank(frag);
  }

  lemma OneNonblank(frag: string)
    requires !Blank(frag)
    ensures Nonblank([frag], true) == [Chunk(frag, true)]
  {
    assert [frag][1..] == [];
  }

  /** What a walk of a cut file finds: no problem, the first `c` events, and a torn tail when the cut fell inside
      the record after them. */
  ghost predicate CutVerifies<P>(f: Format<P>, hash: Hash, ps: seq<P>, state: ChainState, n: nat, c: nat) {
    && c <= |ps| && n <= |FileFrom(f, hash, ps, state)|
    && var raw := FileFrom(f, hash, ps, state)[..n];
       var whole := FileFrom(f, hash, ps[..c], state);
       var v := Verified(f.read, f.gaps, hash, raw);
       && v.ok && v.problems == []
       && Events(f.read, raw) == EventsFrom(f, hash, ps[..c], state)
       && v.notes == Verified(f.read, f.gaps, hash, whole).notes + (if |whole| < n then [TornTail(c + 1)] else [])
       && |whole| <= n + 1 && (c < |ps| ==> n < |whole| + |LineAt(f, hash, ps, state, c)|)
  }

  lemma AtBoundary<P(!new)>(f: Format<P>, hash: Hash, ps: seq<P>, state: ChainState, n: nat, m: nat)
    requires Faithful(f) && m <= |ps| && n <= |FileFrom(f, hash, ps, state)|
    requires FileFrom(f, hash, ps, state)[..n] == FileFrom(f, hash, ps[..m], state)
    ensures CutVerifies(f, hash, ps, state, n, m)
  {
    hide FileFrom, EventsFrom, Events, Verified, StateFrom;
    WrittenVerifies(f, hash, ps[..m], state);
    assert |FileFrom(f, hash, ps[..m], state)| == n;
    if m < |ps| { assert LF !in LineAt(f, hash, ps, state, m) && !Blank(LineAt(f, hash, ps, state, m)); SomeLine(LineAt(f, hash, ps, state, m)); }
  }

  lemma SomeLine(line: string)
    requires !Blank(line)
    ensures line != ""
  {
  }

  lemma {:induction false} WholeSnoc(lines: seq<string>, line: string)
    ensures Whole(lines + [line]) == Whole(lines) + [Chunk(line, false)]
    decreases |lines|
  {
    if lines == [] {
      assert (lines + [line])[1..] == [];
    } else {
      assert (lines + [line])[1..] == lines[1..] + [line];
      WholeSnoc(lines[1..], line);
    }
  }

  /** Every chunk of a written file is a record of its own. */
  lemma WrittenReadable<P(!new)>(f: Format<P>, hash: Hash, ps: seq<P>, state: ChainState)
    requires Faithful(f)
    ensures Readable(f.read, Chunks(FileFrom(f, hash, ps, state)))
    ensures Records(f.read, Chunks(FileFrom(f, hash, ps, state))) == EventsFrom(f, hash, ps, state)
  {
    hide Chunks, Whole, Blank, NoBreaks, Readable;
    LinesReadBack(f, hash, ps, state);
    ChunksOfJoin(LinesFrom(f, hash, ps, state));
  }

  lemma ReadableMore(read: Reader, cs: seq<Chunk>, last: Chunk)
    requires Readable(read, cs) && (read(last.text).Record? || (last.torn && read(last.text).NotJson?))
    ensures Readable(read, cs + [last])
  {
  }

  /** The walk over the whole lines and one last chunk, torn off somewhere. */
  lemma WalkOneMore<P(!new)>(f: Format<P>, hash: Hash, ps: seq<P>, state: ChainState, frag: string)
    requires Faithful(f) && LF !in frag && !Blank(frag) && f.read(frag) == NotJson
    ensures var raw := FileFrom(f, hash, ps, state) + frag;
            var v := Verified(f.read, f.gaps, hash, raw);
            && v.ok && v.problems == [] && Events(f.read, raw) == EventsFrom(f, hash, ps, state)
            && v.notes == Verified(f.read, f.gaps, hash, FileFrom(f, hash, ps, state)).notes + [TornTail(|ps| + 1)]
  {
    hide FileFrom, EventsFrom, Chunks, Blank, Chained, Problems, Readable, Records, Notes;
    var file := FileFrom(f, hash, ps, state);
    var cs, last := Chunks(file), Chunk(frag, true);
    FragmentChunks(f, hash, ps, state, frag);
    WrittenReadable(f, hash, ps, state);
    WrittenChained(f, hash, ps, state);
    RecordsAppend(f.read, cs, [last]);
    OneChunk(f.read, f.gaps, last, |cs| + 1);
    ReadableMore(f.read, cs, last);
    assert EventsFrom(f, hash, ps, state) + [] == EventsFrom(f, hash, ps, state);
    NotesAppend(f.read, f.gaps, cs, [last], 1);
    VerifiedExactly(f.read, f.gaps, hash, file + frag);
  }

  /** The same when the last line is all there but for its terminator. */
  lemma WalkUnterminated<P(!new)>(f: Format<P>, hash: Hash, ps: seq<P>, state: ChainState, m: nat)
    requires Faithful(f) && m < |ps|
    ensures var raw := FileFrom(f, hash, ps[..m], state) + LineAt(f, hash, ps, state, m);
            var v := Verified(f.read, f.gaps, hash, raw);
            && v.ok && v.problems == [] && Events(f.read, raw) == EventsFrom(f, hash, ps[..m + 1], state)
            && v.notes == Verified(f.read, f.gaps, hash, FileFrom(f, hash, ps[..m + 1], state)).notes
  {
    hide FileFrom, EventsFrom, Chunks, Blank, Chained, Problems, HashMaterial, StateFrom, Readable, Records, Notes;
    var line, e := LineAt(f, hash, ps, state, m), EventAt(f, hash, ps, state, m);
    assert LF !in line && !Blank(line) && f.read(line) == Record(e);
    var file := FileFrom(f, hash, ps[..m], state);
    var cs, last, ended := Chunks(file), Chunk(line, true), Chunk(line, false);
    UpTo(f, hash, ps, state, m);
    FragmentChunks(f, hash, ps[..m], state, line);
    WrittenReadable(f, hash, ps[..m], state);
    WrittenChained(f, hash, ps[..m + 1], state);
    RecordsAppend(f.read, cs, [last]);
    EndedChunks(f, hash, ps, state, m);
    OneChunk(f.read, f.gaps, last, |cs| + 1);
    OneChunk(f.read, f.gaps, ended, |cs| + 1);
    NotesAppend(f.read, f.gaps, cs, [last], 1);
    NotesAppend(f.read, f.gaps, cs, [ended], 1);
    ReadableMore(f.read, cs, last);
    VerifiedExactly(f.read, f.gaps, hash, file + line);
  }

  lemma EndedChunks<P(!new)>(f: Format<P>, hash: Hash, ps: seq<P>, state: ChainState, m: nat)
    requires Faithful(f) && m < |ps|
    ensures Chunks(FileFrom(f, hash, ps[..m + 1], state))
         == Chunks(FileFrom(f, hash, ps[..m], state)) + [Chunk(LineAt(f, hash, ps, state, m), false)]
  {
    hide Chunks, Whole, Blank, NoBreaks, StateFrom, ChainEvent;
    assert ps[..m + 1] == ps[..m] + [ps[m]];
    AppendOne(f, hash, ps[..m], ps[m], state);
    LinesReadBack(f, hash, ps[..m], state);
    LinesReadBack(f, hash, ps[..m + 1], state);
    ChunksOfJoin(LinesFrom(f, hash, ps[..m], state));
    ChunksOfJoin(LinesFrom(f, hash, ps[..m + 1], state));
    WholeSnoc(LinesFrom(f, hash, ps[..m], state), LineAt(f, hash, ps, state, m));
  }

  lemma InFragment<P(!new)>(f: Format<P>, hash: Hash, ps: seq<P>, state: ChainState, n: nat, m: nat, frag: string) returns (c: nat)
    requires Faithful(f) && CutsFail(f) && m < |ps| && n <= |FileFrom(f, hash, ps, state)|
    requires FileFrom(f, hash, ps, state)[..n] == FileFrom(f, hash, ps[..m], state) + frag
    requires frag != "" && |frag| <= |LineAt(f, hash, ps, state, m)| && frag == LineAt(f, hash, ps, state, m)[..|frag|]
    ensures CutVerifies(f, hash, ps, state, n, c)
  {
    hide FileFrom, EventsFrom, Events, Verified, StateFrom, Blank;
    var line := LineAt(f, hash, ps, state, m);
    assert LF !in line;
    UpTo(f, hash, ps, state, m);
    assert |FileFrom(f, hash, ps[..m], state)| + |frag| == n;
    if |frag| == |line| {
      c := m + 1;
      assert frag == line;
      WalkUnterminated(f, hash, ps, state, m);
      if c < |ps| { assert !Blank(LineAt(f, hash, ps, state, c)); SomeLine(LineAt(f, hash, ps, state, c)); }
    } else {
      c := m;
      assert f.read(f.render(ps[m], EventAt(f, hash, ps, state, m).integrity)[..|frag|]) == NotJson;
      assert LF !in frag;
      WalkOneMore(f, hash, ps[..m], state, frag);
    }
  }

  /** A written file cut at any byte verifies: the walk keeps every record complete before the cut, finds no
      problem, and notes a torn tail exactly when the cut fell inside a record. */
  lemma CutFileVerifies<P(!new)>(f: Format<P>, hash: Hash, ps: seq<P>, state: ChainState, n: nat) returns (c: nat)
    requires Faithful(f) && CutsFail(f) && n <= |FileFrom(f, hash, ps, state)|
    ensures CutVerifies(f, hash, ps, state, n, c)
  {
    hide FileFrom, LineAt, CutVerifies, Faithful, CutsFail;
    assert ps[..|ps|] == ps;
    var m, frag := CutAt(f, hash, ps, state, n, |ps|);
    if frag == "" {
      assert FileFrom(f, hash, ps[..m], state) + frag == FileFrom(f, hash, ps[..m], state);
      AtBoundary(f, hash, ps, state, n, m);
      c := m;
    } else {
      c := InFragment(f, hash, ps, state, n, m, frag);
    }
  }
}
