/** The file sink and the logger as objects (createFileSink in src/audit/file-sink.ts, src/audit/logger.ts),
    proved against the steps of module Writer. */
module AuditLogger {
  import opened Wrappers
  import opened Text
  import opened Chain
  import opened Resume
  import opened RecordFiles
  import opened Writer

  /** The file and the mark: its length after the last append that completed. */
  class FileSink {
    var file: string
    var committed: nat

    constructor (existing: string)
      ensures file == existing && committed == |existing|
    {
      file, committed := existing, |existing|;
    }

    /** discardPartialAppend. */
    method DiscardPartialAppend() returns (discarded: bool)
      modifies this`file
      ensures file == Discard(old(file), committed)
      ensures discarded <==> file != old(file)
    {
      if |file| <= committed { return false; }
      if committed > 0 && file[committed - 1] != LF { return false; }
      file := file[..committed];
      return true;
    }

    /** One append. The outcome decides what reaches the file; a failure is rolled back and thrown. */
    method Append(line: string, o: Outcome) returns (failure: Option<string>)
      modifies this
      ensures o.Stored? ==> failure == None && file == old(file) + line && committed == old(committed) + |line|
      ensures o.Cut? ==> failure == Some(o.reason) && file == Discard(old(file) + Landed(line, o), committed) && committed == old(committed)
    {
      match o {
        case Stored =>
          file := file + line;
          committed := committed + |line|;
          return None;
        case Cut(_, reason) =>
          file := file + Landed(line, o);
          var discarded := DiscardPartialAppend();
          return Some(reason);
      }
    }
  }

  class Logger<P> {
    const env: Env<P>
    const sink: FileSink
    var chain: ChainState
    var gap: Option<Gap>
    var dropped: nat
    ghost var before: seq<P>
    ghost var log: seq<Entry<P>>
    ghost var emitted: nat
    ghost var refused: seq<Refusal>

    ghost function Abstract(): State<P>
      reads this, sink
    {
      State(sink.file, sink.committed, chain, gap, dropped, before, log, emitted, refused)
    }

    /** A process starts on an existing file: the chain is seeded from its tail. */
    constructor (env: Env<P>, existing: string, chunk: nat, ghost earlier: State<P>)
      requires chunk > 0 && earlier.file == existing
      ensures fresh(sink) && this.env == env
      ensures Abstract() == Restart(env, earlier, chunk)
    {
      var resumed := ResumeChainState(env.f.resume, existing, chunk);
      this.env := env;
      sink := new FileSink(existing);
      chain, gap, dropped := resumed.state, None, 0;
      before, log, emitted, refused := OnFile(earlier), [], 0, [];
    }

    /** deliverDurable, and commit on success: the chain advances only once the record is on file. */
    method DeliverAndCommit(p: P, ghost declared: Option<nat>, o: Outcome) returns (failure: Option<string>)
      modifies this`chain, this`log, sink
      ensures Abstract() == Deliver(env, old(Abstract()), p, declared, o)
      ensures failure == match o case Stored => None case Cut(_, reason) => Some(reason)
    {
      hide HashMaterial, Discard;
      var event := ChainEvent(env.hash, env.f.canon(p), chain);
      failure := sink.Append(env.f.render(p, event.integrity) + [LF], o);
      if failure.None? {
        chain := ChainState(event.integrity.chainIndex + 1, Some(event.integrity.hash));
        log := log + [Entry(p, declared)];
      }
    }

    /** declarePendingGap. */
    method DeclarePendingGap(o: Outcome)
      modifies this`chain, this`log, this`gap, this`refused, sink
      ensures Abstract() == Declare(env, old(Abstract()), o)
    {
      hide Deliver;
      if gap.None? { return; }
      var failure := DeliverAndCommit(env.marker(gap.value), Some(gap.value.count), o);
      if failure.Some? { return; }
      gap := None;
      refused := [];
    }

    /** dropRecord. */
    method DropRecord(now: nat, reason: string)
      modifies this`dropped, this`gap, this`refused
      ensures Abstract() == Drop(old(Abstract()), now, reason)
    {
      dropped := dropped + 1;
      refused := refused + [Refusal(now, reason)];
      gap := Some(if gap.None? then Gap(1, now, now, reason)
                  else gap.value.(count := gap.value.count + 1, lastFailure := now));
    }

    /** emit. */
    method Emit(p: P, now: nat, first: Outcome, second: Outcome)
      modifies this, sink
      ensures Abstract() == Writer.Emit(env, old(Abstract()), p, now, first, second)
    {
      hide Deliver, Declare, Drop;
      emitted := emitted + 1;
      DeclarePendingGap(first);
      var failure := DeliverAndCommit(p, None, second);
      if failure.Some? { DropRecord(now, failure.value); }
    }

    /** auditDropStats: how many were dropped, and how many of those no marker declares yet. */
    method AuditDropStats() returns (total: nat, undeclared: nat)
      ensures total == Abstract().dropped && undeclared == Undeclared(Abstract())
    {
      return dropped, match gap case None => 0 case Some(g) => g.count;
    }
  }

  // ----- what an auditor reads off the file

  /** Drops that the notes of a walk declare. */
  function Noted(notes: seq<Note>): nat {
    if notes == [] then 0
    else (match notes[0] case GapDeclared(_, d) => d case TornTail(_) => 0) + Noted(notes[1..])
  }

  /** Gap markers read as such, and no other record does. */
  ghost predicate MarkersTold<P(!new)>(env: Env<P>, log: seq<Entry<P>>) {
    forall i: nat | i < |log| :: env.f.gaps(env.f.canon(log[i].payload)) == log[i].declared
  }

  lemma {:induction false} NotesOfLines<P(!new)>(env: Env<P>, log: seq<Entry<P>>, state: ChainState, n: nat)
    requires Faithful(env.f) && MarkersTold(env, log)
    ensures Noted(Notes(env.f.read, env.f.gaps, Whole(LinesFrom(env.f, env.hash, Payloads(log), state)), n)) == Declared(log)
    decreases log
  {
    hide HashMaterial;
    if log != [] {
      var p, ps := log[0].payload, Payloads(log);
      assert ps[0] == p && ps[1..] == Payloads(log[1..]);
      var e := ChainEvent(env.hash, env.f.canon(p), state);
      var line := env.f.render(p, e.integrity);
      var rest := LinesFrom(env.f, env.hash, ps[1..], After(e));
      assert LinesFrom(env.f, env.hash, ps, state) == [line] + rest;
      assert Whole([line] + rest) == [Chunk(line, false)] + Whole(rest);
      assert env.f.gaps(env.f.canon(log[0].payload)) == log[0].declared;
      forall i: nat | i < |log[1..]|
        ensures env.f.gaps(env.f.canon(log[1..][i].payload)) == log[1..][i].declared
      {
        assert log[1..][i] == log[i + 1];
      }
      NotesOfLines(env, log[1..], After(e), n + 1);
      var cs := Whole([line] + rest);
      assert cs[0] == Chunk(line, false) && cs[1..] == Whole(rest);
      NotedSplit(LineNotes(env.f.read, env.f.gaps, cs[0], n), Notes(env.f.read, env.f.gaps, cs[1..], n + 1));
      OneNote(env, line, e, n);
    }
  }

  lemma OneNote<P(!new)>(env: Env<P>, line: string, e: Event, n: nat)
    requires env.f.read(line) == Record(e)
    ensures Noted(LineNotes(env.f.read, env.f.gaps, Chunk(line, false), n))
         == match env.f.gaps(e.payload) case None => 0 case Some(d) => d
  {
    if env.f.gaps(e.payload).Some? {
      var note := GapDeclared(n, env.f.gaps(e.payload).value);
      assert [note][1..] == [];
    }
  }

  lemma {:induction false} NotedSplit(a: seq<Note>, b: seq<Note>)
    ensures Noted(a + b) == Noted(a) + Noted(b)
  {
    if a == [] {
      assert a + b == b;
    } else {
      assert (a + b)[1..] == a[1..] + b;
      NotedSplit(a[1..], b);
    }
  }

  predicate OneProcess<P>(ops: seq<Op<P>>) { forall i | 0 <= i < |ops| :: ops[i].EmitOp? }

  lemma {:induction false} BeforeStays<P>(env: Env<P>, w: State<P>, ops: seq<Op<P>>)
    requires OneProcess(ops)
    ensures Run(env, w, ops).before == w.before
    decreases ops
  {
    hide Step;
    if ops != [] {
      StepBefore(env, w, ops[0]);
      BeforeStays(env, Step(env, w, ops[0]), ops[1..]);
    }
  }

  lemma StepBefore<P>(env: Env<P>, w: State<P>, op: Op<P>)
    requires op.EmitOp?
    ensures Step(env, w, op).before == w.before
  {
    hide LineFor, Discard, HashMaterial;
  }

  /** The drops a verifier reads off the file, and those still undeclared, are all that was dropped. */
  ghost predicate EveryDropSeen<P>(env: Env<P>, w: State<P>) {
    Noted(Verified(env.f.read, env.f.gaps, env.hash, w.file).notes) + Undeclared(w) == w.dropped
  }

  /** The marker the logger writes for a gap reads back as the count of that gap. */
  ghost predicate MarkersDeclare<P(!new)>(env: Env<P>) {
    forall g: Gap {:trigger env.marker(g)} :: env.f.gaps(env.f.canon(env.marker(g))) == Some(g.count)
  }

  /** Nothing emitted passes for a marker. */
  predicate NonePosed<P>(env: Env<P>, ops: seq<Op<P>>) {
    forall i | 0 <= i < |ops| && ops[i].EmitOp? :: env.f.gaps(env.f.canon(ops[i].payload)) == None
  }

  lemma DeliverTold<P(!new)>(env: Env<P>, w: State<P>, p: P, declared: Option<nat>, o: Outcome)
    requires MarkersTold(env, w.log) && env.f.gaps(env.f.canon(p)) == declared
    ensures MarkersTold(env, Deliver(env, w, p, declared, o).log)
  {
    hide LineFor, Discard, HashMaterial;
  }

  lemma EmitTold<P(!new)>(env: Env<P>, w: State<P>, p: P, now: nat, first: Outcome, second: Outcome)
    requires MarkersDeclare(env) && MarkersTold(env, w.log) && env.f.gaps(env.f.canon(p)) == None
    ensures MarkersTold(env, Writer.Emit(env, w, p, now, first, second).log)
  {
    hide Deliver, MarkersTold;
    var w0 := w.(emitted := w.emitted + 1);
    if w.gap.Some? {
      var g := w.gap.value;
      DeliverTold(env, w0, env.marker(g), Some(g.count), first);
    }
    DeliverTold(env, Declare(env, w0, first), p, None, second);
  }

  lemma {:induction false} RunTold<P(!new)>(env: Env<P>, w: State<P>, ops: seq<Op<P>>)
    requires MarkersDeclare(env) && OneProcess(ops) && NonePosed(env, ops) && MarkersTold(env, w.log)
    ensures MarkersTold(env, Run(env, w, ops).log)
    decreases ops
  {
    hide Writer.Emit, MarkersTold, MarkersDeclare;
    if ops != [] {
      var op := ops[0];
      EmitTold(env, w, op.payload, op.now, op.first, op.second);
      RunTold(env, Step(env, w, op), ops[1..]);
    }
  }

  /** In one process on a new file, however its appends fail, the drops a verifier reads off the file and the
      drops the logger still holds undeclared add up to all that was dropped. */
  lemma AuditorSeesEveryDrop<P(!new)>(env: Env<P>, ops: seq<Op<P>>)
    requires Faithful(env.f) && MarkersDeclare(env) && OneProcess(ops) && NonePosed(env, ops)
    ensures EveryDropSeen(env, Run(env, Boot<P>(), ops))
  {
    hide Run, MarkersTold, EveryDropSeen, Consistent, Accounted, MarkersDeclare;
    BootConsistent(env);
    NothingTold(env);
    RunTold(env, Boot<P>(), ops);
    Writer.RunKeeps(env, Boot<P>(), ops);
    BeforeStays(env, Boot<P>(), ops);
    FileNotes(env, Run(env, Boot<P>(), ops));
  }

  lemma NothingTold<P(!new)>(env: Env<P>)
    ensures MarkersTold(env, Boot<P>().log)
  {
  }

  lemma FileNotes<P(!new)>(env: Env<P>, w: State<P>)
    requires Faithful(env.f) && Consistent(env, w) && Accounted(w) && w.before == [] && MarkersTold(env, w.log)
    ensures EveryDropSeen(env, w)
  {
    hide Problems, Chunks, MarkersTold;
    var ps := Payloads(w.log);
    assert OnFile(w) == ps;
    LinesReadBack(env.f, env.hash, ps, FRESH);
    ChunksOfJoin(LinesFrom(env.f, env.hash, ps, FRESH));
    NotesOfLines(env, w.log, FRESH, 1);
  }
}
