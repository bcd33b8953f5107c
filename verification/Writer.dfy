/** Writing evidence (src/audit/logger.ts, createFileSink in src/audit/file-sink.ts): chain a record,
    offer it to a durable sink that may fail part way, roll back, and later declare the loss. */
module Writer {
  import opened Wrappers
  import opened Text
  import opened Chain
  import opened Resume
  import opened RecordFiles

  /** Records refused so far, waiting to be declared inside the chain. Times are counters. */
  datatype Gap = Gap(count: nat, firstFailure: nat, lastFailure: nat, reason: string)

  /** What became of one append: the whole line, or a prefix of it and an error. */
  datatype Outcome = Stored | Cut(landed: nat, reason: string)

  datatype Env<!P> = Env(f: Format<P>, hash: Hash, marker: Gap -> P)

  /** One stored record of this process; `declared` is set on gap markers. */
  datatype Entry<+P> = Entry(payload: P, declared: Option<nat>)

  /** One refused record: when, and why. */
  datatype Refusal = Refusal(at: nat, reason: string)

  /** The writer and its file. `before`, `log`, `emitted` and `refused` are history: the records on file when
      the process started, those it stored since, the number of emit calls, and the refusals no marker has
      declared yet. */
  datatype State<+P> = State(
    file: string, committed: nat,
    chain: ChainState, gap: Option<Gap>, dropped: nat,
    before: seq<P>, log: seq<Entry<P>>, emitted: nat, refused: seq<Refusal>)

  function Boot<P>(): State<P> { State("", 0, FRESH, None, 0, [], [], 0, []) }

  // ----- one step of each kind

  function Payloads<P>(log: seq<Entry<P>>): seq<P> {
    if log == [] then [] else [log[0].payload] + Payloads(log[1..])
  }

  function OnFile<P>(w: State<P>): seq<P> { w.before + Payloads(w.log) }

  /** discardPartialAppend: drop what lies past the mark, when the mark is a record boundary. */
  function Discard(file: string, mark: nat): string {
    if |file| <= mark then file
    else if mark > 0 && file[mark - 1] != LF then file
    else file[..mark]
  }

  function LineFor<P>(env: Env<P>, p: P, chain: ChainState): string {
    env.f.render(p, ChainEvent(env.hash, env.f.canon(p), chain).integrity) + [LF]
  }

  function Landed(line: string, o: Outcome): string
    requires o.Cut?
  {
    line[..if o.landed <= |line| then o.landed else |line|]
  }

  /** Chain a payload and offer it to the sink; on success it joins the chain. */
  function Deliver<P>(env: Env<P>, w: State<P>, p: P, declared: Option<nat>, o: Outcome): State<P> {
    var line := LineFor(env, p, w.chain);
    match o
    case Stored =>
      w.(file := w.file + line, committed := w.committed + |line|,
         chain := After(ChainEvent(env.hash, env.f.canon(p), w.chain)),
         log := w.log + [Entry(p, declared)])
    case Cut(_, _) => w.(file := Discard(w.file + Landed(line, o), w.committed))
  }

  /** declarePendingGap. */
  function Declare<P>(env: Env<P>, w: State<P>, o: Outcome): State<P> {
    match w.gap
    case None => w
    case Some(gap) =>
      var next := Deliver(env, w, env.marker(gap), Some(gap.count), o);
      if o.Stored? then next.(gap := None, refused := []) else next
  }

  /** dropRecord. */
  function Drop<P>(w: State<P>, now: nat, reason: string): State<P> {
    w.(dropped := w.dropped + 1, refused := w.refused + [Refusal(now, reason)],
       gap := Some(match w.gap
                   case None => Gap(1, now, now, reason)
                   case Some(g) => g.(count := g.count + 1, lastFailure := now)))
  }

  /** emit: `first` is the fate of the marker, if one is due, and `second` of the record. */
  function Emit<P>(env: Env<P>, w: State<P>, p: P, now: nat, first: Outcome, second: Outcome): State<P> {
    var next := Deliver(env, Declare(env, w.(emitted := w.emitted + 1), first), p, None, second);
    match second
    case Stored => next
    case Cut(_, reason) => Drop(next, now, reason)
  }

  /** A new process on the same file: the chain is resumed from its tail, the rest starts over. */
  function Restart<P>(env: Env<P>, w: State<P>, chunk: nat): State<P>
    requires chunk > 0
  {
    var resumed := if w.file == "" then ChainResume(FRESH, Continuous)
                   else FromCandidates(env.f.resume, Candidates(w.file, Window(w.file, |w.file|, chunk)));
    State(w.file, |w.file|, resumed.state, None, 0, OnFile(w), [], 0, [])
  }

  // ----- runs

  datatype Op<+P> =
    | EmitOp(payload: P, now: nat, first: Outcome, second: Outcome)
    | RestartOp(chunk: nat)

  function Step<P>(env: Env<P>, w: State<P>, op: Op<P>): State<P> {
    match op
    case EmitOp(p, now, first, second) => Emit(env, w, p, now, first, second)
    case RestartOp(chunk) => Restart(env, w, chunk + 1)
  }

  function Run<P>(env: Env<P>, w: State<P>, ops: seq<Op<P>>): State<P>
    decreases |ops|
  {
    if ops == [] then w else Run(env, Step(env, w, ops[0]), ops[1..])
  }

  // ----- what every step keeps

  function Ordinary<P>(log: seq<Entry<P>>): nat {
    if log == [] then 0 else (if log[0].declared.None? then 1 else 0) + Ordinary(log[1..])
  }

  function Declared<P>(log: seq<Entry<P>>): nat {
    if log == [] then 0 else (if log[0].declared.Some? then log[0].declared.value else 0) + Declared(log[1..])
  }

  function Undeclared<P>(w: State<P>): nat { match w.gap case None => 0 case Some(g) => g.count }

  /** The file is exactly the stored records, and the writer's memory agrees with it. */
  ghost predicate Consistent<P>(env: Env<P>, w: State<P>) {
    && w.file == FileFrom(env.f, env.hash, OnFile(w), FRESH)
    && w.committed == |w.file|
    && w.chain == StateFrom(env.f, env.hash, OnFile(w), FRESH)
  }

  /** The gap to declare: how many refusals there were, when they began and ended, and why they began. */
  function Described(refused: seq<Refusal>): Option<Gap> {
    if refused == [] then None
    else Some(Gap(|refused|, refused[0].at, refused[|refused| - 1].at, refused[0].reason))
  }

  /** Every emit call is stored or counted dropped, every drop is declared or still pending, and what is
      pending describes exactly the refusals since the last marker. */
  predicate Accounted<P>(w: State<P>) {
    && w.emitted == Ordinary(w.log) + w.dropped
    && w.dropped == Declared(w.log) + Undeclared(w)
    && w.gap == Described(w.refused)
  }

  lemma {:induction false} LogAppend<P>(log: seq<Entry<P>>, e: Entry<P>)
    ensures Payloads(log + [e]) == Payloads(log) + [e.payload]
    ensures Ordinary(log + [e]) == Ordinary(log) + (if e.declared.None? then 1 else 0)
    ensures Declared(log + [e]) == Declared(log) + (if e.declared.Some? then e.declared.value else 0)
  {
    if log == [] {
      assert log + [e] == [e];
    } else {
      assert (log + [e])[1..] == log[1..] + [e];
      LogAppend(log[1..], e);
    }
  }

  lemma {:induction false} JoinEndsInLf(lines: seq<string>)
    ensures Join(lines) != "" ==> Join(lines)[|Join(lines)| - 1] == LF
  {
    if lines != [] { JoinEndsInLf(lines[1..]); }
  }

  /** Rolling back a partial append restores the file. */
  lemma RollbackRestores(file: string, part: string)
    requires file == "" || file[|file| - 1] == LF
    ensures Discard(file + part, |file|) == file
  {
    assert (file + part)[..|file|] == file;
    if part == "" { assert file + part == file; }
  }

  /** A file is cut only back to the mark, only where bytes lie past it, and only where a record ends there. */
  lemma DiscardsExactly(file: string, mark: nat)
    ensures var kept := Discard(file, mark);
            && kept <= file
            && (kept != file <==> mark < |file| && (mark == 0 || file[mark - 1] == '\n'))
            && (kept != file ==> |kept| == mark)
  {
  }

  /** What one emit stores, in order: the marker of a pending gap when it can be written, then the record when it can be.
      A record refused is counted, and added to the gap still pending or begins one with its own time and reason. */
  lemma EmitOutcome<P>(env: Env<P>, w: State<P>, p: P, now: nat, first: Outcome, second: Outcome)
    ensures var next := Emit(env, w, p, now, first, second);
            var marked := w.gap.Some? && first.Stored?;
            && next.log == w.log + (if marked then [Entry(env.marker(w.gap.value), Some(w.gap.value.count))] else [])
                                 + (if second.Stored? then [Entry(p, None)] else [])
            && next.emitted == w.emitted + 1 && next.before == w.before
            && if second.Stored? then
                 next.dropped == w.dropped && next.gap == if marked then None else w.gap
               else
                 && next.dropped == w.dropped + 1
                 && next.gap == Some(if marked || w.gap.None? then Gap(1, now, now, second.reason)
                                     else Gap(w.gap.value.count + 1, w.gap.value.firstFailure, now, w.gap.value.reason))
  {
    hide HashMaterial, Discard, LineFor;
    assert w.log + [] == w.log;
  }

  lemma DeliverKeeps<P>(env: Env<P>, w: State<P>, p: P, declared: Option<nat>, o: Outcome)
    requires Consistent(env, w)
    ensures Consistent(env, Deliver(env, w, p, declared, o))
    ensures o.Cut? ==> Deliver(env, w, p, declared, o) == w
  {
    match o
    case Stored =>
      AppendOne(env.f, env.hash, OnFile(w), p, FRESH);
      LogAppend(w.log, Entry(p, declared));
      assert OnFile(Deliver(env, w, p, declared, o)) == OnFile(w) + [p];
      var line := env.f.render(p, ChainEvent(env.hash, env.f.canon(p), w.chain).integrity);
      assert w.file + (line + [LF]) == w.file + line + [LF];
    case Cut(_, _) =>
      JoinEndsInLf(LinesFrom(env.f, env.hash, OnFile(w), FRESH));
      RollbackRestores(w.file, Landed(LineFor(env, p, w.chain), o));
  }

  lemma EmitKeeps<P>(env: Env<P>, w: State<P>, p: P, now: nat, first: Outcome, second: Outcome)
    requires Consistent(env, w) && Accounted(w)
    ensures var next := Emit(env, w, p, now, first, second);
            Consistent(env, next) && Accounted(next)
  {
    hide Consistent, Deliver, OnFile, Payloads, Declare, Ordinary, Declared;
    var w0 := w.(emitted := w.emitted + 1);
    assert Consistent(env, w0) by { Rephrased(env, w, w0); }
    DeclareKeeps(env, w0, first);
    var w1 := Declare(env, w0, first);
    var w2 := Deliver(env, w1, p, None, second);
    DeliverKeeps(env, w1, p, None, second);
    DeliverCounts(env, w1, p, None, second);
    Rephrased(env, w2, Emit(env, w, p, now, first, second));
  }

  /** What a delivery changes in the accounts. */
  lemma DeliverCounts<P>(env: Env<P>, w: State<P>, p: P, declared: Option<nat>, o: Outcome)
    ensures var next := Deliver(env, w, p, declared, o);
            && next.gap == w.gap && next.dropped == w.dropped && next.emitted == w.emitted && next.before == w.before
            && next.refused == w.refused
            && Ordinary(next.log) == Ordinary(w.log) + (if o.Stored? && declared.None? then 1 else 0)
            && Declared(next.log) == Declared(w.log) + (if o.Stored? && declared.Some? then declared.value else 0)
  {
    hide LineFor, Discard, ChainEvent;
    LogAppend(w.log, Entry(p, declared));
  }

  lemma DeclareKeeps<P>(env: Env<P>, w: State<P>, o: Outcome)
    requires Consistent(env, w)
    ensures var next := Declare(env, w, o);
            && Consistent(env, next) && next.dropped == w.dropped && next.emitted == w.emitted
            && Ordinary(next.log) == Ordinary(w.log)
            && Declared(next.log) + Undeclared(next) == Declared(w.log) + Undeclared(w)
            && (w.gap == Described(w.refused) ==> next.gap == Described(next.refused))
  {
    hide Consistent, Deliver, OnFile, Payloads;
    if w.gap.Some? {
      var g := w.gap.value;
      DeliverKeeps(env, w, env.marker(g), Some(g.count), o);
      DeliverCounts(env, w, env.marker(g), Some(g.count), o);
      Rephrased(env, Deliver(env, w, env.marker(g), Some(g.count), o), Declare(env, w, o));
    }
  }

  /** Consistency is about the file, the mark and the chain only. */
  lemma Rephrased<P>(env: Env<P>, w: State<P>, v: State<P>)
    requires Consistent(env, w)
    requires v.file == w.file && v.committed == w.committed && v.chain == w.chain && v.before == w.before && v.log == w.log
    ensures Consistent(env, v)
  {
  }

  lemma RestartKeeps<P(!new)>(env: Env<P>, w: State<P>, chunk: nat)
    requires Faithful(env.f) && chunk > 0 && Consistent(env, w)
    ensures var next := Restart(env, w, chunk);
            Consistent(env, next) && Accounted(next) && next.file == w.file && next.chain == w.chain
  {
    WrittenResumes(env.f, env.hash, OnFile(w), FRESH);
    BackwardIsForward(env.f.resume, w.file, chunk);
    assert OnFile(Restart(env, w, chunk)) == OnFile(w);
  }

  lemma {:induction false} RunKeeps<P(!new)>(env: Env<P>, w: State<P>, ops: seq<Op<P>>)
    requires Faithful(env.f) && Consistent(env, w) && Accounted(w)
    ensures Consistent(env, Run(env, w, ops)) && Accounted(Run(env, w, ops))
    decreases ops
  {
    hide Consistent, Accounted, Emit, Restart;
    if ops != [] {
      match ops[0]
      case EmitOp(p, now, first, second) =>
        EmitKeeps(env, w, p, now, first, second);
        RunKeeps(env, Step(env, w, ops[0]), ops[1..]);
      case RestartOp(chunk) =>
        RestartKeeps(env, w, chunk + 1);
        RunKeeps(env, Step(env, w, ops[0]), ops[1..]);
    }
  }

  // ----- the main results

  /** The file verifies as one chain of exactly the stored records, and the writer's memory names the next
      index and the last stored hash. */
  ghost predicate OneChain<P>(env: Env<P>, w: State<P>) {
    var v := Verified(env.f.read, env.f.gaps, env.hash, w.file);
    var es := Events(env.f.read, w.file);
    && v.ok && v.problems == [] && v.records == |es| == |OnFile(w)|
    && es == EventsFrom(env.f, env.hash, OnFile(w), FRESH)
    && w.chain == (if es == [] then FRESH else After(es[|es| - 1]))
    && w.chain.chainIndex == |es|
  }

  /** Whatever the appends do and however often the process restarts, the file verifies as one chain of
      exactly the stored records, and memory names the next index and the last stored hash. */
  lemma WriterRunStaysOneChain<P(!new)>(env: Env<P>, ops: seq<Op<P>>)
    requires Faithful(env.f)
    ensures OneChain(env, Run(env, Boot<P>(), ops))
  {
    hide Run, OneChain;
    BootConsistent(env);
    RunKeeps(env, Boot<P>(), ops);
    ConsistentVerifies(env, Run(env, Boot<P>(), ops));
  }

  lemma BootConsistent<P>(env: Env<P>)
    ensures Consistent(env, Boot()) && Accounted<P>(Boot())
  {
  }

  lemma ConsistentVerifies<P(!new)>(env: Env<P>, w: State<P>)
    requires Faithful(env.f) && Consistent(env, w)
    ensures OneChain(env, w)
  {
    hide Verified, Events, FileFrom;
    var ps := OnFile(w);
    WrittenVerifies(env.f, env.hash, ps, FRESH);
    EventsLength(env.f, env.hash, ps, FRESH);
    IndexesCount(env.f, env.hash, ps, FRESH);
  }

  lemma {:induction false} IndexesCount<P>(f: Format<P>, hash: Hash, ps: seq<P>, state: ChainState)
    ensures StateFrom(f, hash, ps, state).chainIndex == state.chainIndex + |ps|
    decreases ps
  {
    if ps != [] { IndexesCount(f, hash, ps[1..], After(ChainEvent(hash, f.canon(ps[0]), state))); }
  }

  /** Drop accounting is conserved within a process, for every interleaving of failures. */
  lemma DropsConserved<P(!new)>(env: Env<P>, ops: seq<Op<P>>)
    requires Faithful(env.f)
    ensures Accounted(Run(env, Boot<P>(), ops))
  {
    hide Run;
    BootConsistent(env);
    RunKeeps(env, Boot<P>(), ops);
  }
}
