/** Recovering chain state from the tail of an audit file (resumeChainState in src/audit/file-sink.ts). */
module Resume {
  import opened Wrappers
  import opened Text
  import opened Chain

  /** What a resume makes of one line: the state after it, when it parses and carries an integrity
      block with a numeric index and a string hash. */
  type Resumer = string -> Option<ChainState>

  datatype Discontinuity = Continuous | NoRecord | NoIntactRecord | AfterTorn(torn: nat)

  datatype ChainResume = ChainResume(state: ChainState, discontinuity: Discontinuity)

  // ----- the answer a scan of a list of lines gives

  function Filled(lines: seq<string>): seq<string> {
    if lines == [] then []
    else if Blank(lines[0]) then Filled(lines[1..])
    else [lines[0]] + Filled(lines[1..])
  }

  /** Walk back from the end for the last line that resumes; `torn` lines were passed already. */
  function LastIntact(resume: Resumer, lines: seq<string>, torn: nat): ChainResume {
    if lines == [] then ChainResume(FRESH, NoIntactRecord)
    else
      match resume(lines[|lines| - 1])
      case Some(state) => ChainResume(state, if torn == 0 then Continuous else AfterTorn(torn))
      case None => LastIntact(resume, lines[..|lines| - 1], torn + 1)
  }

  function FromCandidates(resume: Resumer, candidates: seq<string>): ChainResume {
    if candidates == [] then ChainResume(FRESH, NoRecord) else LastIntact(resume, candidates, 0)
  }

  /** The answer of a scan of the whole file. */
  function ForwardScan(resume: Resumer, raw: string): ChainResume {
    if raw == "" then ChainResume(FRESH, Continuous) else FromCandidates(resume, Filled(Split(raw)))
  }

  // ----- the backward read

  function Newlines(s: string): nat {
    if s == "" then 0 else (if s[0] == LF then 1 else 0) + Newlines(s[1..])
  }

  /** Where reading backwards in chunks stops, having reached `pos` so far. */
  function Window(raw: string, pos: nat, chunk: nat): (w: nat)
    requires pos <= |raw| && chunk > 0
    ensures w <= pos
    ensures w == 0 || Newlines(raw[w..]) >= 3
    decreases pos
  {
    var next := if pos <= chunk then 0 else pos - chunk;
    if next == 0 || Newlines(raw[next..]) >= 3 then next else Window(raw, next, chunk)
  }

  function Candidates(raw: string, pos: nat): seq<string>
    requires pos <= |raw|
  {
    var filled := Filled(Split(raw[pos..]));
    if pos > 0 && filled != [] then filled[1..] else filled
  }

  /** Read backwards in chunks until the window holds three terminators or the whole file. */
  method ReadCandidates(raw: string, chunk: nat) returns (candidates: seq<string>)
    requires chunk > 0 && raw != ""
    ensures candidates == Candidates(raw, Window(raw, |raw|, chunk))
  {
    hide Filled, Split, Newlines;
    var tail, pos := "", |raw|;
    ghost var w := Window(raw, |raw|, chunk);
    while pos > 0
      invariant 0 < pos <= |raw| && tail == raw[pos..]
      invariant w == Window(raw, pos, chunk)
    {
      var len := if pos < chunk then pos else chunk;
      pos := pos - len;
      tail := raw[pos..pos + len] + tail;
      assert tail == raw[pos..];
      if pos == 0 || Newlines(tail) >= 3 {
        candidates := Filled(Split(tail));
        if pos > 0 && candidates != [] { candidates := candidates[1..]; }
        return;
      }
    }
  }

  /** Walk back for the last record that parses. */
  method WalkBack(resume: Resumer, candidates: seq<string>) returns (r: ChainResume)
    ensures r == LastIntact(resume, candidates, 0)
  {
    var torn, i := 0, |candidates| - 1;
    assert candidates[..i + 1] == candidates;
    while i >= 0
      invariant -1 <= i < |candidates|
      invariant LastIntact(resume, candidates[..i + 1], torn) == LastIntact(resume, candidates, 0)
    {
      assert candidates[..i + 1][..i] == candidates[..i];
      match resume(candidates[i]) {
        case Some(state) =>
          return ChainResume(state, if torn == 0 then Continuous else AfterTorn(torn));
        case None => torn := torn + 1;
      }
      i := i - 1;
    }
    return ChainResume(FRESH, NoIntactRecord);
  }

  /** resumeChainState on a file's text, reading `chunk` bytes at a time (8192 in the source). */
  method ResumeChainState(resume: Resumer, raw: string, chunk: nat) returns (r: ChainResume)
    requires chunk > 0
    ensures raw == "" ==> r == ChainResume(FRESH, Continuous)
    ensures raw != "" ==> r == FromCandidates(resume, Candidates(raw, Window(raw, |raw|, chunk)))
    ensures TailIntact(resume, raw) ==> r == ForwardScan(resume, raw)
  {
    hide LastIntact, Window, Candidates, ForwardScan, TailIntact;
    BackwardIsForward(resume, raw, chunk);
    if raw == "" { return ChainResume(FRESH, Continuous); }
    var candidates := ReadCandidates(raw, chunk);
    if candidates == [] { return ChainResume(FRESH, NoRecord); }
    r := WalkBack(resume, candidates);
  }

  // ----- the backward read answers for the whole file

  /** The last terminated line resumes, and neither it nor the terminated line before it is blank. What
      follows the last terminator may be anything. */
  ghost predicate TailIntact(resume: Resumer, raw: string) {
    var r := Split(raw);
    && |r| >= 2
    && resume(r[|r| - 2]).Some? && !Blank(r[|r| - 2])
    && (|r| >= 3 ==> !Blank(r[|r| - 3]))
  }

  lemma EmptySplit()
    ensures |Split("")| == 1
  {
  }

  lemma {:induction false} NewlinesSplit(s: string)
    ensures |Split(s)| == Newlines(s) + 1
  {
    if s != "" { NewlinesSplit(s[1..]); }
  }

  lemma SplitStep(c: char, s: string)
    ensures Split([c] + s) == if c == LF then [""] + Split(s) else [[c] + Split(s)[0]] + Split(s)[1..]
  {
    assert ([c] + s)[1..] == s;
  }

  /** Text put in front changes only the first piece of a split, and adds pieces before it. */
  lemma {:induction false} SplitConcat(a: string, b: string) returns (front: seq<string>)
    ensures |front| >= 1 && Split(a + b) == front + Split(b)[1..]
  {
    hide Split;
    if a == "" {
      assert a + b == b;
      front := [Split(b)[0]];
    } else {
      var rest := SplitConcat(a[1..], b);
      assert a + b == [a[0]] + (a[1..] + b);
      SplitStep(a[0], a[1..] + b);
      front := if a[0] == LF then [""] + rest else [[a[0]] + rest[0]] + rest[1..];
    }
  }

  lemma {:induction false} FilledConcat(a: seq<string>, b: seq<string>)
    ensures Filled(a + b) == Filled(a) + Filled(b)
    decreases a
  {
    if a == [] {
      assert a + b == b;
    } else {
      assert (a + b)[1..] == a[1..] + b;
      FilledConcat(a[1..], b);
    }
  }

  /** Lines before an intact one do not matter. */
  lemma {:induction false} LastIntactSuffix(resume: Resumer, a: seq<string>, b: seq<string>, torn: nat)
    requires exists i :: 0 <= i < |b| && resume(b[i]).Some?
    ensures LastIntact(resume, a + b, torn) == LastIntact(resume, b, torn)
    decreases b
  {
    var last := b[|b| - 1];
    assert (a + b)[|a + b| - 1] == last;
    if resume(last).None? {
      var i :| 0 <= i < |b| && resume(b[i]).Some?;
      assert b[..|b| - 1][i] == b[i];
      assert (a + b)[..|a + b| - 1] == a + b[..|b| - 1];
      LastIntactSuffix(resume, a, b[..|b| - 1], torn + 1);
    }
  }

  /** With three newlines in the window, the last three pieces of the file are whole in it. */
  lemma SharedEnd(front: seq<string>, t: seq<string>)
    requires |front| >= 1 && |t| >= 4
    ensures var r := front + t[1..];
            |r| >= 4 && r[|r| - 3] == t[|t| - 3] && r[|r| - 2] == t[|t| - 2] && r[|r| - 2..] == t[|t| - 2..]
  {
  }

  /** Pieces ending in two nonblank lines and a rest: dropping the first nonblank one keeps the last line. */
  lemma DroppedFirst(resume: Resumer, pieces: seq<string>, dropped: bool)
    requires |pieces| >= 3
    requires resume(pieces[|pieces| - 2]).Some? && !Blank(pieces[|pieces| - 2]) && !Blank(pieces[|pieces| - 3])
    ensures var filled := Filled(pieces);
            |filled| >= 2 &&
            FromCandidates(resume, if dropped then filled[1..] else filled)
              == LastIntact(resume, Filled(pieces[|pieces| - 2..]), 0)
  {
    var n := |pieces|;
    var before, m, b := Filled(pieces[..n - 3]), pieces[n - 3], Filled(pieces[n - 2..]);
    assert pieces[..n - 3] + [m] + pieces[n - 2..] == pieces;
    FilledConcat(pieces[..n - 3] + [m], pieces[n - 2..]);
    FilledConcat(pieces[..n - 3], [m]);
    assert Filled([m]) == [m];
    assert b[0] == pieces[n - 2];
    var filled := Filled(pieces);
    assert filled == before + [m] + b;
    LastIntactSuffix(resume, before + [m], b, 0);
    assert filled[1..] == (before + [m])[1..] + b;
    LastIntactSuffix(resume, (before + [m])[1..], b, 0);
  }

  /** For every chunk size, and records of any length, the backward read gives the answer of a scan of
      the whole file. */
  lemma BackwardIsForward(resume: Resumer, raw: string, chunk: nat)
    requires chunk > 0
    ensures TailIntact(resume, raw) ==>
              raw != "" &&
              FromCandidates(resume, Candidates(raw, Window(raw, |raw|, chunk))) == ForwardScan(resume, raw)
  {
    hide Split, Newlines, FromCandidates, Filled, LastIntact;
    EmptySplit();
    if TailIntact(resume, raw) {
      var w := Window(raw, |raw|, chunk);
      if w == 0 {
        assert raw[0..] == raw;
      } else {
        var t := Split(raw[w..]);
        NewlinesSplit(raw[w..]);
        var front := SplitConcat(raw[..w], raw[w..]);
        assert raw[..w] + raw[w..] == raw;
        SharedEnd(front, t);
        DroppedFirst(resume, Split(raw), false);
        DroppedFirst(resume, t, true);
      }
    }
  }
}
