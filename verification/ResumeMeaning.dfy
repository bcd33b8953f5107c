/** What a restart makes of a file, line by line (resumeChainState in src/audit/file-sink.ts): which record it goes on
    from and what it reports, on any text and on a written file cut at any byte. */
module ResumeMeaning {
  import opened Wrappers
  import opened Text
  import opened Chain
  import opened Resume
  import opened RecordFiles
  import opened CutFiles

  // ----- on any text

  /** How many of these lines are not blank. */
  function Nonblanks(lines: seq<string>): nat {
    if lines == [] then 0 else Nonblanks(lines[..|lines| - 1]) + (if Blank(lines[|lines| - 1]) then 0 else 1)
  }

  /** The last line that resumes: no line behind it that is not blank does. */
  ghost predicate LastGood(resume: Resumer, lines: seq<string>, i: nat) {
    && i < |lines| && !Blank(lines[i]) && resume(lines[i]).Some?
    && forall j :: i < j < |lines| && !Blank(lines[j]) ==> resume(lines[j]).None?
  }

  ghost predicate NoneGood(resume: Resumer, lines: seq<string>) {
    forall j :: 0 <= j < |lines| && !Blank(lines[j]) ==> resume(lines[j]).None?
  }

  /** Lines without their last: what of them is not blank, and how many. */
  lemma WithoutLast(lines: seq<string>)
    requires lines != []
    ensures var before, last := lines[..|lines| - 1], lines[|lines| - 1];
            Filled(lines) == if Blank(last) then Filled(before) else Filled(before) + [last]
  {
    hide Blank;
    var before, last := lines[..|lines| - 1], lines[|lines| - 1];
    FilledConcat(before, [last]);
    assert lines == before + [last] && [last][1..] == [];
    assert Filled([last]) == if Blank(last) then [] else [last];
  }

  lemma {:induction false} BackToGood(resume: Resumer, lines: seq<string>, i: nat, torn: nat)
    requires LastGood(resume, lines, i)
    ensures var n := torn + Nonblanks(lines[i + 1..]);
            LastIntact(resume, Filled(lines), torn) == ChainResume(resume(lines[i]).value, if n == 0 then Continuous else AfterTorn(n))
    decreases |lines|
  {
    hide Blank, Filled;
    var n := |lines| - 1;
    var before, last := lines[..n], lines[n];
    WithoutLast(lines);
    if i < n {
      assert lines[i + 1..][..n - i - 1] == before[i + 1..];
      assert forall j :: 0 <= j < n ==> before[j] == lines[j];
      if !Blank(last) { assert (Filled(before) + [last])[..|Filled(before)|] == Filled(before); }
      BackToGood(resume, before, i, if Blank(last) then torn else torn + 1);
    } else {
      assert lines[i + 1..] == [];
    }
  }

  lemma {:induction false} BackToNothing(resume: Resumer, lines: seq<string>, torn: nat)
    requires NoneGood(resume, lines)
    ensures LastIntact(resume, Filled(lines), torn) == ChainResume(FRESH, NoIntactRecord)
    ensures Filled(lines) == [] <==> Nonblanks(lines) == 0
    decreases |lines|
  {
    hide Blank;
    if lines != [] {
      var n := |lines| - 1;
      var before, last := lines[..n], lines[n];
      WithoutLast(lines);
      assert forall j :: 0 <= j < n ==> before[j] == lines[j];
      if !Blank(last) { assert (Filled(before) + [last])[..|Filled(before)|] == Filled(before); }
      BackToNothing(resume, before, if Blank(last) then torn else torn + 1);
    }
  }

  /** With a line that resumes, the scan goes on from the last one and reports exactly the lines behind it that are not
      blank: none of them, or how many were torn. */
  lemma GoesOn(resume: Resumer, raw: string, i: nat)
    requires LastGood(resume, Split(raw), i)
    ensures var torn := Nonblanks(Split(raw)[i + 1..]);
            ForwardScan(resume, raw)
              == ChainResume(resume(Split(raw)[i]).value, if torn == 0 then Continuous else AfterTorn(torn))
  {
    hide Blank, LastIntact, Filled, Split;
    if raw == "" { EmptyText(); }
    BackToGood(resume, Split(raw), i, 0);
    SomeFilled(Split(raw), i);
  }

  lemma EmptyText()
    ensures Split("") == [""] && Blank("")
  {
  }

  lemma {:induction false} SomeFilled(lines: seq<string>, i: nat)
    requires i < |lines| && !Blank(lines[i])
    ensures Filled(lines) != []
    decreases i
  {
    hide Blank;
    if i > 0 { SomeFilled(lines[1..], i - 1); }
  }

  /** With none it starts over, and says whether there was a line at all. */
  lemma StartsOver(resume: Resumer, raw: string)
    requires NoneGood(resume, Split(raw))
    ensures ForwardScan(resume, raw)
         == ChainResume(FRESH, if raw == "" then Continuous else if Nonblanks(Split(raw)) == 0 then NoRecord else NoIntactRecord)
  {
    hide Blank, LastIntact, Filled, Split;
    BackToNothing(resume, Split(raw), 0);
  }

  lemma {:induction false} GoodOrNot(resume: Resumer, lines: seq<string>) returns (i: nat)
    ensures LastGood(resume, lines, i) || NoneGood(resume, lines)
    decreases |lines|
  {
    hide Blank;
    i := 0;
    if lines != [] {
      var n := |lines| - 1;
      if !Blank(lines[n]) && resume(lines[n]).Some? {
        i := n;
      } else {
        i := GoodOrNot(resume, lines[..n]);
        assert forall j :: 0 <= j < n ==> lines[..n][j] == lines[j];
      }
    }
  }

  /** Each report stands for one kind of text, and they are all the kinds there are. */
  lemma ReportsExactly(resume: Resumer, raw: string)
    ensures var r, lines := ForwardScan(resume, raw), Split(raw);
            && (r.discontinuity == NoIntactRecord <==> raw != "" && Nonblanks(lines) > 0 && NoneGood(resume, lines))
            && (r.discontinuity == NoRecord <==> raw != "" && Nonblanks(lines) == 0 && NoneGood(resume, lines))
            && (r.discontinuity.AfterTorn? <==> exists i :: LastGood(resume, lines, i) && Nonblanks(lines[i + 1..]) > 0)
            && (r.discontinuity == Continuous <==> raw == "" || exists i :: LastGood(resume, lines, i) && Nonblanks(lines[i + 1..]) == 0)
  {
    hide Blank, LastIntact, Filled, Split, ForwardScan, Nonblanks;
    var i := GoodOrNot(resume, Split(raw));
    if raw == "" { EmptyText(); }
    if NoneGood(resume, Split(raw)) { StartsOver(resume, raw); }
    forall k | LastGood(resume, Split(raw), k)
      ensures ForwardScan(resume, raw).discontinuity
           == if Nonblanks(Split(raw)[k + 1..]) == 0 then Continuous else AfterTorn(Nonblanks(Split(raw)[k + 1..]))
    {
      GoesOn(resume, raw, k);
    }
  }

  // ----- on a written file cut at any byte

  /** The beginning of a line resumes nothing. */
  ghost predicate CutsTorn<P(!new)>(f: Format<P>) {
    forall p: P, i: Integrity, k: nat {:trigger f.render(p, i)[..k]} ::
      0 < k < |f.render(p, i)| ==> f.resume(f.render(p, i)[..k]).None? && !Blank(f.render(p, i)[..k])
  }

  lemma OneNonblank(line: string)
    ensures Nonblanks([line]) == if Blank(line) then 0 else 1
  {
    hide Blank;
    assert [line][..0] == [];
  }

  /** Whole lines and what follows the last terminator. */
  lemma Pieces<P(!new)>(f: Format<P>, hash: Hash, ps: seq<P>, state: ChainState, rest: string)
    requires Faithful(f) && LF !in rest
    ensures var lines := LinesFrom(f, hash, ps, state);
            && |lines| == |ps| && Split(FileFrom(f, hash, ps, state) + rest) == lines + [rest]
            && (forall k :: 0 <= k < |lines| ==> !Blank(lines[k]))
            && (ps != [] ==> f.resume(lines[|ps| - 1]) == Some(StateFrom(f, hash, ps, state)))
  {
    hide Blank, Split, Join;
    LinesReadBack(f, hash, ps, state);
    SplitJoin(LinesFrom(f, hash, ps, state), rest);
    if ps != [] { LastLine(f, hash, ps, state); }
  }

  /** What a scan makes of lines of which the last but one resumes and the last is nothing or no record. */
  lemma EndsGood(resume: Resumer, raw: string, lines: seq<string>, rest: string)
    requires Split(raw) == lines + [rest] && lines != [] && !Blank(lines[|lines| - 1]) && resume(lines[|lines| - 1]).Some?
    requires rest == "" || (!Blank(rest) && resume(rest).None?)
    requires |lines| > 1 ==> !Blank(lines[|lines| - 2])
    ensures TailIntact(resume, raw)
    ensures ForwardScan(resume, raw) == ChainResume(resume(lines[|lines| - 1]).value, if rest == "" then Continuous else AfterTorn(1))
  {
    hide Blank, Split, ForwardScan, Nonblanks;
    var all, i := lines + [rest], |lines| - 1;
    OneNonblank(rest);
    EmptyText();
    assert all[i + 1..] == [rest];
    assert LastGood(resume, all, i);
    GoesOn(resume, raw, i);
  }

  /** Whole lines, then nothing or a fragment that is no record. */
  lemma ResumesBefore<P(!new)>(f: Format<P>, hash: Hash, ps: seq<P>, state: ChainState, rest: string)
    requires Faithful(f) && LF !in rest && (rest == "" || (!Blank(rest) && f.resume(rest).None?)) && ps != []
    ensures ForwardScan(f.resume, FileFrom(f, hash, ps, state) + rest)
         == ChainResume(StateFrom(f, hash, ps, state), if rest == "" then Continuous else AfterTorn(1))
    ensures TailIntact(f.resume, FileFrom(f, hash, ps, state) + rest)
  {
    hide Blank, Split, Faithful, FileFrom, LinesFrom, StateFrom, ForwardScan, TailIntact;
    Pieces(f, hash, ps, state, rest);
    EndsGood(f.resume, FileFrom(f, hash, ps, state) + rest, LinesFrom(f, hash, ps, state), rest);
  }

  /** No whole line, and nothing or a fragment. */
  lemma ResumesNothing(resume: Resumer, rest: string)
    requires LF !in rest && (rest == "" || (!Blank(rest) && resume(rest).None?))
    ensures ForwardScan(resume, rest) == ChainResume(FRESH, if rest == "" then Continuous else NoIntactRecord)
  {
    hide Blank, Split, ForwardScan, Nonblanks, Join;
    assert Join([]) == "" by { NothingJoined(); }
    SplitJoin([], rest);
    assert Join([]) + rest == rest && Split(rest) == [rest];
    OneNonblank(rest);
    EmptyText();
    assert NoneGood(resume, [rest]);
    StartsOver(resume, rest);
  }

  lemma NothingJoined()
    ensures Join([]) == ""
  {
  }

  lemma NoWholeLine<P>(f: Format<P>, hash: Hash, state: ChainState, rest: string)
    ensures FileFrom(f, hash, [], state) + rest == rest
  {
  }

  /** Whole lines, then one more without its terminator. */
  lemma ResumesUnterminated<P(!new)>(f: Format<P>, hash: Hash, ps: seq<P>, state: ChainState, m: nat)
    requires Faithful(f) && m < |ps|
    ensures var raw := FileFrom(f, hash, ps[..m], state) + LineAt(f, hash, ps, state, m);
            && ForwardScan(f.resume, raw) == ChainResume(StateFrom(f, hash, ps[..m + 1], state), Continuous)
            && (m > 0 ==> TailIntact(f.resume, raw))
  {
    hide Blank, Split, FileFrom, LinesFrom, StateFrom, ForwardScan, ChainEvent;
    var line, e := LineAt(f, hash, ps, state, m), EventAt(f, hash, ps, state, m);
    var raw, lines := FileFrom(f, hash, ps[..m], state) + line, LinesFrom(f, hash, ps[..m], state) + [line];
    assert LF !in line && !Blank(line) && f.resume(line) == Some(After(e));
    Pieces(f, hash, ps[..m], state, line);
    assert ps[..m + 1] == ps[..m] + [ps[m]];
    AppendOne(f, hash, ps[..m], ps[m], state);
    assert lines[m + 1..] == [];
    assert LastGood(f.resume, lines, m);
    GoesOn(f.resume, raw, m);
  }

  /** Fewer than three terminators, and the backward read takes in the whole file. */
  lemma ShortFile(resume: Resumer, raw: string, chunk: nat)
    requires chunk > 0 && raw != "" && LF !in raw
    ensures FromCandidates(resume, Candidates(raw, Window(raw, |raw|, chunk))) == ForwardScan(resume, raw)
  {
    hide Split, Filled, FromCandidates;
    ShortWindow(raw, |raw|, chunk);
    assert raw[0..] == raw;
  }

  lemma {:induction false} ShortWindow(raw: string, pos: nat, chunk: nat)
    requires chunk > 0 && pos <= |raw| && LF !in raw
    ensures Window(raw, pos, chunk) == 0
    decreases pos
  {
    var next := if pos <= chunk then 0 else pos - chunk;
    NoNewlines(raw[next..]);
    if next > 0 { ShortWindow(raw, next, chunk); }
  }

  lemma {:induction false} NoNewlines(s: string)
    requires LF !in s
    ensures Newlines(s) == 0
  {
    if s != "" { NoNewlines(s[1..]); }
  }

  /** What resumeChainState answers, reading `chunk` bytes at a time. */
  function Answer(resume: Resumer, raw: string, chunk: nat): ChainResume
    requires chunk > 0
  {
    if raw == "" then ChainResume(FRESH, Continuous) else FromCandidates(resume, Candidates(raw, Window(raw, |raw|, chunk)))
  }

  /** Cut a written file at any byte, as a kill may, and restart on what is left: the writer goes on from the last
      record that is complete, reports one torn record exactly when the cut fell inside one, and starts over only when
      no record is complete. */
  ghost predicate CutResumes<P>(f: Format<P>, hash: Hash, ps: seq<P>, state: ChainState, n: nat, chunk: nat, c: nat)
    requires chunk > 0
  {
    && c <= |ps| && n <= |FileFrom(f, hash, ps, state)|
    && var whole := FileFrom(f, hash, ps[..c], state);
       && |whole| <= n + 1 && (c < |ps| ==> n < |whole| + |LineAt(f, hash, ps, state, c)|)
       && Answer(f.resume, FileFrom(f, hash, ps, state)[..n], chunk)
          == if c == 0 then ChainResume(FRESH, if n == 0 then Continuous else NoIntactRecord)
             else ChainResume(StateFrom(f, hash, ps[..c], state), if n <= |whole| then Continuous else AfterTorn(1))
  }

  lemma CutFileResumes<P(!new)>(f: Format<P>, hash: Hash, ps: seq<P>, state: ChainState, n: nat, chunk: nat) returns (c: nat)
    requires Faithful(f) && CutsTorn(f) && n <= |FileFrom(f, hash, ps, state)| && chunk > 0
    ensures CutResumes(f, hash, ps, state, n, chunk, c)
  {
    hide FileFrom, LineAt, CutResumes, Faithful, CutsTorn;
    assert ps[..|ps|] == ps;
    var m, frag := CutFiles.CutAt(f, hash, ps, state, n, |ps|);
    if frag != "" && frag == LineAt(f, hash, ps, state, m) {
      UnterminatedResumes(f, hash, ps, state, n, chunk, m);
      c := m + 1;
    } else {
      FragmentResumes(f, hash, ps, state, n, chunk, m, frag);
      c := m;
    }
  }

  lemma LineFilled<P(!new)>(f: Format<P>, hash: Hash, ps: seq<P>, state: ChainState, m: nat)
    requires Faithful(f) && m < |ps|
    ensures LF !in LineAt(f, hash, ps, state, m) && LineAt(f, hash, ps, state, m) != ""
  {
    hide ChainEvent, StateFrom, Blank;
    assert !Blank(LineAt(f, hash, ps, state, m));
    SomeLine(LineAt(f, hash, ps, state, m));
  }

  lemma FragmentResumes<P(!new)>(f: Format<P>, hash: Hash, ps: seq<P>, state: ChainState, n: nat, chunk: nat, m: nat, frag: string)
    requires Faithful(f) && CutsTorn(f) && m <= |ps| && n <= |FileFrom(f, hash, ps, state)| && chunk > 0
    requires FileFrom(f, hash, ps, state)[..n] == FileFrom(f, hash, ps[..m], state) + frag
    requires frag != "" ==>
      m < |ps| && |frag| < |LineAt(f, hash, ps, state, m)| && frag == LineAt(f, hash, ps, state, m)[..|frag|]
    ensures CutResumes(f, hash, ps, state, n, chunk, m)
  {
    hide FileFrom, StateFrom, Faithful, ForwardScan, Candidates, Window, FromCandidates, ChainEvent, Blank;
    var raw := FileFrom(f, hash, ps[..m], state) + frag;
    if m < |ps| { LineFilled(f, hash, ps, state, m); }
    if frag != "" {
      assert f.resume(f.render(ps[m], EventAt(f, hash, ps, state, m).integrity)[..|frag|]).None?;
      assert LF !in frag;
    }
    assert |raw| == n;
    if m > 0 {
      ResumesBefore(f, hash, ps[..m], state, frag);
      BackwardIsForward(f.resume, raw, chunk);
    } else {
      assert ps[..0] == [];
      NoWholeLine(f, hash, state, frag);
      EmptyFile(f, hash, state);
      ResumesNothing(f.resume, frag);
      if frag != "" { ShortFile(f.resume, raw, chunk); }
    }
  }

  lemma EmptyFile<P>(f: Format<P>, hash: Hash, state: ChainState)
    ensures FileFrom(f, hash, [], state) == ""
  {
  }

  lemma UnterminatedResumes<P(!new)>(f: Format<P>, hash: Hash, ps: seq<P>, state: ChainState, n: nat, chunk: nat, m: nat)
    requires Faithful(f) && m < |ps| && n <= |FileFrom(f, hash, ps, state)| && chunk > 0
    requires FileFrom(f, hash, ps, state)[..n] == FileFrom(f, hash, ps[..m], state) + LineAt(f, hash, ps, state, m)
    ensures CutResumes(f, hash, ps, state, n, chunk, m + 1)
  {
    hide FileFrom, StateFrom, Faithful, ForwardScan, Candidates, Window, FromCandidates, ChainEvent;
    var line := LineAt(f, hash, ps, state, m);
    var raw := FileFrom(f, hash, ps[..m], state) + line;
    LineFilled(f, hash, ps, state, m);
    assert |raw| == n;
    UpTo(f, hash, ps, state, m);
    ResumesUnterminated(f, hash, ps, state, m);
    if m + 1 < |ps| { LineFilled(f, hash, ps, state, m + 1); }
    if m > 0 {
      BackwardIsForward(f.resume, raw, chunk);
    } else {
      assert ps[..0] == [];
      NoWholeLine(f, hash, state, line);
      ShortFile(f.resume, raw, chunk);
    }
  }
}
