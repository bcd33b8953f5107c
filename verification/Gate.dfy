/** The approval gate (src/approval/gate.ts) and its persisted queue (src/approval/store.ts). */
module Gate {
  import opened Wrappers
  import opened Text

  datatype Mode = Auto | Always | Never

  datatype Decision = Approved | Denied | TimedOut

  datatype Response = Response(id: nat, decision: Decision, approvedBy: Option<string>, note: Option<string>, at: nat)

  /** A queued request; `waiting` when a promise of this process still hangs on it. */
  datatype Pending<+R> = Pending(id: nat, request: R, createdAt: nat, expiresAt: nat, waiting: bool)

  datatype Record<+R> = Record(id: nat, request: R, response: Response, createdAt: nat)

  /** The store file. */
  datatype Saved<+R> = Saved(pending: seq<Pending<R>>, history: seq<Record<R>>)

  /** The gate and its store file, with the history behind them: every record ever made, newest first, every
      promise settled, and the number of ids issued. Ids are fresh; here they count up. */
  datatype State<+R> = State(mode: Mode, pending: seq<Pending<R>>, history: seq<Record<R>>, saved: Saved<R>,
                             log: seq<Record<R>>, settled: seq<Response>, issued: nat)

  const KEPT := 100

  // ----- the pending map, in insertion order

  function Find<R>(ps: seq<Pending<R>>, id: nat): Option<Pending<R>> {
    if ps == [] then None else if ps[0].id == id then Some(ps[0]) else Find(ps[1..], id)
  }

  function Without<R>(ps: seq<Pending<R>>, id: nat): seq<Pending<R>> {
    if ps == [] then [] else (if ps[0].id == id then [] else [ps[0]]) + Without(ps[1..], id)
  }

  function Put<R>(ps: seq<Pending<R>>, p: Pending<R>): seq<Pending<R>> {
    if ps == [] then [p] else if ps[0].id == p.id then [p] + ps[1..] else [ps[0]] + Put(ps[1..], p)
  }

  // ----- persistence

  function Newest<R>(h: seq<Record<R>>): seq<Record<R>> { if |h| <= KEPT then h else h[..KEPT] }

  /** Stable insertion by descending creation time. */
  function InsertDesc<R>(p: Pending<R>, ps: seq<Pending<R>>): seq<Pending<R>> {
    if ps == [] || ps[0].createdAt <= p.createdAt then [p] + ps else [ps[0]] + InsertDesc(p, ps[1..])
  }

  /** getPersistedPending: entries without their promise, newest first. */
  function Persisted<R>(ps: seq<Pending<R>>): seq<Pending<R>> {
    if ps == [] then [] else InsertDesc(ps[0].(waiting := false), Persisted(ps[1..]))
  }

  function Persist<R>(g: State<R>): State<R> { g.(saved := Saved(Persisted(g.pending), g.history)) }

  /** recordDecision. */
  function Recorded<R>(g: State<R>, r: Record<R>): State<R> {
    Persist(g.(history := Newest([r] + g.history), log := [r] + g.log))
  }

  // ----- the operations

  function TimeoutNote<R>(p: Pending<R>): string { "Timed out after " + Integer(p.expiresAt - p.createdAt) + "ms" }

  function TimeoutResponse<R>(p: Pending<R>, now: nat): Response { Response(p.id, TimedOut, None, Some(TimeoutNote(p)), now) }

  predicate AutoApproves(mode: Mode, requiresApproval: bool) { mode == Never || (mode == Auto && !requiresApproval) }

  function AutoResponse(mode: Mode, id: nat, now: nat): Response {
    Response(id, Approved, Some("agentwall-auto"),
             Some(if mode == Never then "Auto-approved (mode=never)" else "Auto-approved by policy"), now)
  }

  function Request<R>(g: State<R>, req: R, requiresApproval: bool, timeout: nat, now: nat): State<R> {
    var id := g.issued;
    var h := g.(issued := id + 1);
    if AutoApproves(g.mode, requiresApproval) then
      var a := AutoResponse(g.mode, id, now);
      var next := Recorded(h, Record(id, req, a, now));
      next.(settled := next.settled + [a])
    else Persist(h.(pending := h.pending + [Pending(id, req, now, now + timeout, true)]))
  }

  /** A pending entry leaves the queue with a response, and its promise settles if one is waiting. */
  function Resolved<R>(g: State<R>, p: Pending<R>, a: Response): State<R> {
    var next := Recorded(g.(pending := Without(g.pending, p.id)), Record(p.id, p.request, a, p.createdAt));
    if p.waiting then next.(settled := next.settled + [a]) else next
  }

  function Respond<R>(g: State<R>, id: nat, approve: bool, approvedBy: Option<string>, note: Option<string>, now: nat): State<R> {
    match Find(g.pending, id)
    case None => g
    case Some(p) => Resolved(g, p, Response(id, if approve then Approved else Denied, approvedBy, note, now))
  }

  function Expire<R>(g: State<R>, id: nat, now: nat): State<R> {
    match Find(g.pending, id)
    case None => g
    case Some(p) => Resolved(g, p, TimeoutResponse(p, now))
  }

  function Restore<R>(g: State<R>, stored: seq<Pending<R>>, now: nat): State<R>
    decreases stored
  {
    if stored == [] then Persist(g)
    else
      var p := stored[0];
      var next := if p.expiresAt <= now then Recorded(g, Record(p.id, p.request, TimeoutResponse(p, now), p.createdAt))
                  else g.(pending := Put(g.pending, p.(waiting := false)));
      Restore(next, stored[1..], now)
  }

  /** A new process on the same store file. */
  function Restart<R>(g: State<R>, mode: Mode, now: nat): State<R> {
    Restore(g.(mode := mode, pending := [], history := Newest(g.saved.history)), g.saved.pending, now)
  }

  /** close: the queue is emptied in memory and left in the store. */
  function Close<R>(g: State<R>): State<R> { g.(pending := []) }

  datatype Op<+R> =
    | RequestOp(request: R, requiresApproval: bool, timeout: nat, now: nat)
    | RespondOp(id: nat, approve: bool, approvedBy: Option<string>, note: Option<string>, now: nat)
    | TimeoutOp(id: nat, now: nat)
    | SetModeOp(mode: Mode)
    | RestartOp(mode: Mode, now: nat)

  function Step<R>(g: State<R>, op: Op<R>): State<R> {
    match op
    case RequestOp(req, needs, timeout, now) => Request(g, req, needs, timeout, now)
    case RespondOp(id, approve, approvedBy, note, now) => Respond(g, id, approve, approvedBy, note, now)
    case TimeoutOp(id, now) => Expire(g, id, now)
    case SetModeOp(mode) => g.(mode := mode)
    case RestartOp(mode, now) => Restart(g, mode, now)
  }

  function Run<R>(g: State<R>, ops: seq<Op<R>>): State<R>
    decreases |ops|
  {
    if ops == [] then g else Run(Step(g, ops[0]), ops[1..])
  }

  function Fresh<R>(mode: Mode): State<R> { State(mode, [], [], Saved([], []), [], [], 0) }

  // ----- counting

  function Queued<R>(ps: seq<Pending<R>>, id: nat): nat {
    if ps == [] then 0 else (if ps[0].id == id then 1 else 0) + Queued(ps[1..], id)
  }

  function Logged<R>(log: seq<Record<R>>, id: nat): nat {
    if log == [] then 0 else (if log[0].id == id then 1 else 0) + Logged(log[1..], id)
  }

  function Settlements(settled: seq<Response>, id: nat): nat {
    if settled == [] then 0 else (if settled[0].id == id then 1 else 0) + Settlements(settled[1..], id)
  }

  lemma {:induction false} QueuedConcat<R>(a: seq<Pending<R>>, b: seq<Pending<R>>, id: nat)
    ensures Queued(a + b, id) == Queued(a, id) + Queued(b, id)
    decreases a
  {
    if a == [] {
      assert a + b == b;
    } else {
      assert (a + b)[1..] == a[1..] + b;
      QueuedConcat(a[1..], b, id);
    }
  }

  lemma {:induction false} SettlementsConcat(a: seq<Response>, b: seq<Response>, id: nat)
    ensures Settlements(a + b, id) == Settlements(a, id) + Settlements(b, id)
  {
    if a == [] {
      assert a + b == b;
    } else {
      assert (a + b)[1..] == a[1..] + b;
      SettlementsConcat(a[1..], b, id);
    }
  }

  lemma {:induction false} InsertQueued<R>(p: Pending<R>, ps: seq<Pending<R>>, id: nat)
    ensures Queued(InsertDesc(p, ps), id) == Queued(ps, id) + (if p.id == id then 1 else 0)
    decreases ps
  {
    if ps == [] || ps[0].createdAt <= p.createdAt {
      assert ([p] + ps)[1..] == ps;
    } else {
      InsertQueued(p, ps[1..], id);
      assert ([ps[0]] + InsertDesc(p, ps[1..]))[1..] == InsertDesc(p, ps[1..]);
    }
  }

  /** Persisting loses and repeats no entry. */
  lemma {:induction false} PersistedQueued<R>(ps: seq<Pending<R>>, id: nat)
    ensures Queued(Persisted(ps), id) == Queued(ps, id)
    decreases ps
  {
    if ps != [] {
      PersistedQueued(ps[1..], id);
      InsertQueued(ps[0].(waiting := false), Persisted(ps[1..]), id);
    }
  }

  /** The entries of one moment, in order. */
  function Created<R>(ps: seq<Pending<R>>, at: nat): seq<Pending<R>> {
    if ps == [] then [] else (if ps[0].createdAt == at then [ps[0]] else []) + Created(ps[1..], at)
  }

  /** An entry as the store holds it: all but its promise. */
  function Stored<R>(ps: seq<Pending<R>>): (r: seq<Pending<R>>)
    ensures |r| == |ps|
  {
    seq(|ps|, i requires 0 <= i < |ps| => Pending(ps[i].id, ps[i].request, ps[i].createdAt, ps[i].expiresAt, false))
  }

  lemma CreatedStep<R>(p: Pending<R>, ps: seq<Pending<R>>, at: nat)
    ensures Created([p] + ps, at) == (if p.createdAt == at then [p] + Created(ps, at) else Created(ps, at))
  {
    assert ([p] + ps)[1..] == ps;
  }

  lemma {:induction false} InsertCreated<R>(p: Pending<R>, ps: seq<Pending<R>>, at: nat)
    ensures Created(InsertDesc(p, ps), at) == (if p.createdAt == at then [p] + Created(ps, at) else Created(ps, at))
    decreases ps
  {
    hide Created;
    CreatedStep(p, ps, at);
    if ps != [] && ps[0].createdAt > p.createdAt {
      InsertCreated(p, ps[1..], at);
      CreatedStep(ps[0], InsertDesc(p, ps[1..]), at);
      CreatedStep(ps[0], ps[1..], at);
      assert [ps[0]] + ps[1..] == ps;
    }
  }

  /** The store holds every entry with all its fields but the promise, and those of one moment in the order they came
      in; with the order by time this leaves one arrangement only. */
  lemma {:induction false} PersistedInOrder<R>(ps: seq<Pending<R>>, at: nat)
    ensures Created(Persisted(ps), at) == Stored(Created(ps, at))
    decreases ps
  {
    hide Persisted, Created, InsertDesc;
    if ps == [] {
      NoneStored<R>(at);
    } else {
      PersistedInOrder(ps[1..], at);
      PersistedFirst(ps);
      InsertCreated(ps[0].(waiting := false), Persisted(ps[1..]), at);
      CreatedStep(ps[0], ps[1..], at);
      assert [ps[0]] + ps[1..] == ps;
      StoredStep(ps[0], Created(ps[1..], at));
    }
  }

  lemma NoneStored<R>(at: nat)
    ensures Created(Persisted<R>([]), at) == Stored(Created<R>([], at))
  {
  }

  lemma PersistedFirst<R>(ps: seq<Pending<R>>)
    requires ps != []
    ensures Persisted(ps) == InsertDesc(ps[0].(waiting := false), Persisted(ps[1..]))
  {
  }

  lemma StoredStep<R>(p: Pending<R>, ps: seq<Pending<R>>)
    ensures Stored([p] + ps) == [p.(waiting := false)] + Stored(ps)
  {
  }

  predicate NewestFirst<R>(ps: seq<Pending<R>>) { forall i, j | 0 <= i < j < |ps| :: ps[i].createdAt >= ps[j].createdAt }

  lemma {:induction false} PersistedSorted<R>(ps: seq<Pending<R>>)
    ensures NewestFirst(Persisted(ps))
    decreases ps
  {
    if ps != [] {
      PersistedSorted(ps[1..]);
      InsertSorted(ps[0].(waiting := false), Persisted(ps[1..]));
    }
  }

  lemma {:induction false} InsertSorted<R>(p: Pending<R>, ps: seq<Pending<R>>)
    requires NewestFirst(ps)
    ensures NewestFirst(InsertDesc(p, ps))
    ensures forall q | q in InsertDesc(p, ps) :: q == p || q in ps
    decreases ps
  {
    if ps != [] && ps[0].createdAt > p.createdAt {
      InsertSorted(p, ps[1..]);
      var r := InsertDesc(p, ps[1..]);
      assert forall q | q in r :: q.createdAt <= ps[0].createdAt;
    }
  }

  lemma {:induction false} WithoutQueued<R>(ps: seq<Pending<R>>, gone: nat, id: nat)
    ensures Queued(Without(ps, gone), id) == if id == gone then 0 else Queued(ps, id)
    decreases ps
  {
    if ps != [] {
      WithoutQueued(ps[1..], gone, id);
      if ps[0].id != gone {
        assert ([ps[0]] + Without(ps[1..], gone))[1..] == Without(ps[1..], gone);
      } else {
        assert [] + Without(ps[1..], gone) == Without(ps[1..], gone);
      }
    }
  }

  lemma {:induction false} FindQueued<R>(ps: seq<Pending<R>>, id: nat)
    ensures Find(ps, id).Some? <==> Queued(ps, id) > 0
    ensures Find(ps, id).Some? ==> Find(ps, id).value.id == id
    decreases ps
  {
    if ps != [] { FindQueued(ps[1..], id); }
  }

  lemma {:induction false} PutQueued<R>(ps: seq<Pending<R>>, p: Pending<R>, id: nat)
    requires Queued(ps, p.id) == 0
    ensures Queued(Put(ps, p), id) == Queued(ps, id) + (if p.id == id then 1 else 0)
    decreases ps
  {
    if ps != [] {
      PutQueued(ps[1..], p, id);
      assert ([ps[0]] + Put(ps[1..], p))[1..] == Put(ps[1..], p);
    } else {
      assert [p][1..] == [];
    }
  }

  // ----- what every operation keeps

  /** An issued id is in exactly one place, exactly once: queued or resolved. */
  predicate InOnePlace<R>(g: State<R>, id: nat) {
    Queued(g.pending, id) + Logged(g.log, id) == (if id < g.issued then 1 else 0)
  }

  /** A settled promise got the response that was recorded. */
  predicate SettledAsRecorded<R>(g: State<R>, i: nat)
    requires i < |g.settled|
  {
    exists j :: 0 <= j < |g.log| && g.log[j].response == g.settled[i] && g.log[j].id == g.settled[i].id
  }

  ghost predicate Conserved<R>(g: State<R>) {
    && (forall id: nat :: InOnePlace(g, id))
    && (forall id: nat :: Settlements(g.settled, id) <= Logged(g.log, id))
    && (forall i: nat | i < |g.settled| :: SettledAsRecorded(g, i))
  }

  /** The history is the newest part of the full log, and the store file holds what memory holds. */
  ghost predicate StoreAgrees<R>(g: State<R>) {
    && g.history == Newest(g.log)
    && g.saved == Saved(Persisted(g.pending), g.history)
  }

  ghost predicate Kept<R>(g: State<R>) { Conserved(g) && StoreAgrees(g) }

  /** A settlement may follow the record it settles. */
  lemma RecordKeeps<R>(g: State<R>, r: Record<R>, settles: bool)
    requires g.history == Newest(g.log) && r.response.id == r.id
    requires forall id: nat :: Queued(g.pending, id) + Logged(g.log, id) == (if id < g.issued && id != r.id then 1 else 0)
    requires r.id < g.issued
    requires forall id: nat :: Settlements(g.settled, id) <= Logged(g.log, id)
    requires forall i: nat | i < |g.settled| :: SettledAsRecorded(g, i)
    ensures var next := Recorded(g, r);
            Kept(if settles then next.(settled := next.settled + [r.response]) else next)
  {
    var next := Recorded(g, r);
    var h := if settles then next.(settled := next.settled + [r.response]) else next;
    assert h.log[1..] == g.log && h.log[0] == r;
    assert Newest([r] + Newest(g.log)) == Newest([r] + g.log);
    forall id: nat
      ensures InOnePlace(h, id) && Settlements(h.settled, id) <= Logged(h.log, id)
    {
      assert Logged(h.log, id) == (if r.id == id then 1 else 0) + Logged(g.log, id);
      SettlementsConcat(g.settled, [r.response], id);
      assert [r.response][1..] == [];
    }
    forall i: nat | i < |h.settled|
      ensures SettledAsRecorded(h, i)
    {
      if i < |g.settled| {
        assert SettledAsRecorded(g, i);
        var j :| 0 <= j < |g.log| && g.log[j].response == g.settled[i] && g.log[j].id == g.settled[i].id;
        assert h.log[j + 1] == g.log[j];
      } else {
        assert h.log[0].response == h.settled[i];
      }
    }
  }

  lemma RequestKeeps<R>(g: State<R>, req: R, requiresApproval: bool, timeout: nat, now: nat)
    requires Kept(g)
    ensures Kept(Request(g, req, requiresApproval, timeout, now))
  {
    hide Persisted;
    var id := g.issued;
    var h := g.(issued := id + 1);
    assert InOnePlace(g, id);
    if AutoApproves(g.mode, requiresApproval) {
      forall k: nat
        ensures Queued(h.pending, k) + Logged(h.log, k) == (if k < h.issued && k != id then 1 else 0)
      {
        assert InOnePlace(g, k);
      }
      SameSettled(g, h);
      RecordKeeps(h, Record(id, req, AutoResponse(g.mode, id, now), now), true);
    } else {
      var p := Pending(id, req, now, now + timeout, true);
      var next := Request(g, req, requiresApproval, timeout, now);
      forall k: nat
        ensures InOnePlace(next, k)
      {
        assert InOnePlace(g, k);
        QueuedConcat(g.pending, [p], k);
        assert [p][1..] == [];
      }
      SameSettled(g, next);
    }
  }

  lemma SameSettled<R>(g: State<R>, h: State<R>)
    requires g.settled == h.settled && g.log == h.log && forall i: nat | i < |g.settled| :: SettledAsRecorded(g, i)
    ensures forall i: nat | i < |h.settled| :: SettledAsRecorded(h, i)
  {
    forall i: nat | i < |h.settled|
      ensures SettledAsRecorded(h, i)
    {
      assert SettledAsRecorded(g, i);
    }
  }

  lemma ResolveKeeps<R>(g: State<R>, p: Pending<R>, a: Response)
    requires Kept(g) && Find(g.pending, p.id) == Some(p) && a.id == p.id
    ensures Kept(Resolved(g, p, a))
  {
    hide Persisted;
    var h := g.(pending := Without(g.pending, p.id));
    FindQueued(g.pending, p.id);
    assert InOnePlace(g, p.id);
    forall k: nat
      ensures Queued(h.pending, k) + Logged(h.log, k) == (if k < h.issued && k != p.id then 1 else 0)
    {
      assert InOnePlace(g, k);
      WithoutQueued(g.pending, p.id, k);
    }
    SameSettled(g, h);
    RecordKeeps(h, Record(p.id, p.request, a, p.createdAt), p.waiting);
  }

  /** While the store is replayed, each id is still stored, back in the queue, or resolved. */
  lemma {:induction false} RestoreKeeps<R>(g: State<R>, stored: seq<Pending<R>>, now: nat)
    requires g.history == Newest(g.log)
    requires forall id: nat :: Queued(stored, id) + Queued(g.pending, id) + Logged(g.log, id) == (if id < g.issued then 1 else 0)
    requires forall id: nat :: Settlements(g.settled, id) <= Logged(g.log, id)
    requires forall i: nat | i < |g.settled| :: SettledAsRecorded(g, i)
    ensures Kept(Restore(g, stored, now)) && Restore(g, stored, now).issued == g.issued
    decreases stored
  {
    hide Persisted;
    if stored == [] {
      var next := Persist(g);
      forall id: nat
        ensures InOnePlace(next, id)
      {
        assert Queued(stored, id) == 0;
      }
      SameSettled(g, next);
    } else {
      var p := stored[0];
      assert Queued(stored, p.id) == 1 + Queued(stored[1..], p.id);
      if p.expiresAt <= now {
        RestoreTimeout(g, stored, now);
        RestoreKeeps(Recorded(g, Record(p.id, p.request, TimeoutResponse(p, now), p.createdAt)), stored[1..], now);
      } else {
        var next := g.(pending := Put(g.pending, p.(waiting := false)));
        forall id: nat
          ensures Queued(stored[1..], id) + Queued(next.pending, id) + Logged(next.log, id) == (if id < g.issued then 1 else 0)
        {
          PutQueued(g.pending, p.(waiting := false), id);
          assert Queued(stored, id) == (if p.id == id then 1 else 0) + Queued(stored[1..], id);
        }
        SameSettled(g, next);
        RestoreKeeps(next, stored[1..], now);
      }
    }
  }

  lemma RestoreTimeout<R>(g: State<R>, stored: seq<Pending<R>>, now: nat)
    requires stored != [] && g.history == Newest(g.log)
    requires forall id: nat :: Queued(stored, id) + Queued(g.pending, id) + Logged(g.log, id) == (if id < g.issued then 1 else 0)
    requires forall id: nat :: Settlements(g.settled, id) <= Logged(g.log, id)
    requires forall i: nat | i < |g.settled| :: SettledAsRecorded(g, i)
    ensures var p := stored[0];
            var next := Recorded(g, Record(p.id, p.request, TimeoutResponse(p, now), p.createdAt));
            && next.history == Newest(next.log)
            && (forall id: nat :: Queued(stored[1..], id) + Queued(next.pending, id) + Logged(next.log, id) == (if id < next.issued then 1 else 0))
            && (forall id: nat :: Settlements(next.settled, id) <= Logged(next.log, id))
            && (forall i: nat | i < |next.settled| :: SettledAsRecorded(next, i))
  {
    hide Persisted, TimeoutResponse;
    var p := stored[0];
    var r := Record(p.id, p.request, TimeoutResponse(p, now), p.createdAt);
    var next := Recorded(g, r);
    assert next.log[1..] == g.log && next.log[0] == r;
    assert Newest([r] + Newest(g.log)) == Newest([r] + g.log);
    forall id: nat
      ensures Queued(stored[1..], id) + Queued(next.pending, id) + Logged(next.log, id) == (if id < next.issued then 1 else 0)
      ensures Settlements(next.settled, id) <= Logged(next.log, id)
    {
      assert Queued(stored, id) == (if p.id == id then 1 else 0) + Queued(stored[1..], id);
      assert Logged(next.log, id) == (if p.id == id then 1 else 0) + Logged(g.log, id);
    }
    forall i: nat | i < |next.settled|
      ensures SettledAsRecorded(next, i)
    {
      assert SettledAsRecorded(g, i);
      var j :| 0 <= j < |g.log| && g.log[j].response == g.settled[i] && g.log[j].id == g.settled[i].id;
      assert next.log[j + 1] == g.log[j];
    }
  }

  lemma RestartKeeps<R>(g: State<R>, mode: Mode, now: nat)
    requires Kept(g)
    ensures Kept(Restart(g, mode, now)) && Restart(g, mode, now).issued == g.issued
  {
    hide Persisted, Restore;
    var h := g.(mode := mode, pending := [], history := Newest(g.saved.history));
    assert Newest(Newest(g.log)) == Newest(g.log);
    forall id: nat
      ensures Queued(g.saved.pending, id) + Queued(h.pending, id) + Logged(h.log, id) == (if id < h.issued then 1 else 0)
    {
      assert InOnePlace(g, id);
      PersistedQueued(g.pending, id);
    }
    SameSettled(g, h);
    RestoreKeeps(h, g.saved.pending, now);
  }

  lemma StepKeeps<R>(g: State<R>, op: Op<R>)
    requires Kept(g)
    ensures Kept(Step(g, op))
  {
    hide Request, Resolved, Restart, Persisted, Conserved, TimeoutResponse;
    match op
    case RequestOp(req, needs, timeout, now) => RequestKeeps(g, req, needs, timeout, now);
    case RespondOp(id, approve, approvedBy, note, now) =>
      FindQueued(g.pending, id);
      var found := Find(g.pending, id);
      if found.Some? {
        ResolveKeeps(g, found.value, Response(id, if approve then Approved else Denied, approvedBy, note, now));
      }
    case TimeoutOp(id, now) =>
      FindQueued(g.pending, id);
      TimeoutIsFor(g, id, now);
      var found := Find(g.pending, id);
      if found.Some? { ResolveKeeps(g, found.value, TimeoutResponse(found.value, now)); }
    case SetModeOp(mode) => ModeFrame(g, mode);
    case RestartOp(mode, now) => RestartKeeps(g, mode, now);
  }

  lemma TimeoutIsFor<R>(g: State<R>, id: nat, now: nat)
    ensures Find(g.pending, id).Some? ==> TimeoutResponse(Find(g.pending, id).value, now).id == id
  {
    FindQueued(g.pending, id);
  }

  lemma ModeFrame<R>(g: State<R>, mode: Mode)
    requires Kept(g)
    ensures Kept(g.(mode := mode))
  {
    hide Persisted;
    var h := g.(mode := mode);
    forall id: nat
      ensures InOnePlace(h, id)
    {
      assert InOnePlace(g, id);
    }
    SameSettled(g, h);
  }

  lemma {:induction false} RunKeeps<R>(g: State<R>, ops: seq<Op<R>>)
    requires Kept(g)
    ensures Kept(Run(g, ops))
    decreases ops
  {
    hide Step, Kept;
    if ops != [] {
      StepKeeps(g, ops[0]);
      RunKeeps(Step(g, ops[0]), ops[1..]);
    }
  }

  // ----- main results

  /** Over any run of requests, responses, timeouts, mode changes and restarts: every issued id is queued or
      resolved, once; no promise settles twice, and each settles with the recorded response; the history is
      the newest 100 of the full log; the store file holds what memory holds. */
  lemma GateConserves<R>(mode: Mode, ops: seq<Op<R>>)
    ensures Kept(Run(Fresh<R>(mode), ops))
    ensures var g := Run(Fresh<R>(mode), ops);
            |g.history| == (if |g.log| <= 100 then |g.log| else 100) && g.history == g.log[..|g.history|]
  {
    hide Run;
    FreshKept<R>(mode);
    RunKeeps(Fresh<R>(mode), ops);
  }

  lemma FreshKept<R>(mode: Mode)
    ensures Kept(Fresh<R>(mode))
  {
    assert Newest<Record<R>>([]) == [];
  }

  /** At most one settlement per id, over any run. */
  lemma SettlesAtMostOnce<R>(mode: Mode, ops: seq<Op<R>>, id: nat)
    ensures Settlements(Run(Fresh<R>(mode), ops).settled, id) <= 1
  {
    hide Run;
    GateConserves(mode, ops);
    assert InOnePlace(Run(Fresh<R>(mode), ops), id);
  }

  // ----- what a restart does to each stored entry

  lemma {:induction false} RestoredStays<R>(g: State<R>, stored: seq<Pending<R>>, now: nat, p: Pending<R>)
    requires Queued(stored, p.id) == 0
    ensures Find(g.pending, p.id) == Some(p) ==> Find(Restore(g, stored, now).pending, p.id) == Some(p)
    ensures forall r | r in g.log :: r in Restore(g, stored, now).log
    decreases stored
  {
    hide Persisted, TimeoutResponse;
    if stored != [] {
      var q := stored[0];
      PutFind(g.pending, q.(waiting := false), p.id);
      var next := if q.expiresAt <= now then Recorded(g, Record(q.id, q.request, TimeoutResponse(q, now), q.createdAt))
                  else g.(pending := Put(g.pending, q.(waiting := false)));
      assert Queued(stored[1..], p.id) == 0 && q.id != p.id;
      RestoredStays(next, stored[1..], now, p);
    }
  }

  lemma {:induction false} PutFind<R>(ps: seq<Pending<R>>, p: Pending<R>, id: nat)
    ensures Find(Put(ps, p), id) == if id == p.id then Some(p) else Find(ps, id)
    decreases ps
  {
    if ps == [] {
      assert [p][1..] == [];
    } else {
      PutFind(ps[1..], p, id);
      if ps[0].id == p.id {
        assert ([p] + ps[1..])[1..] == ps[1..];
      } else {
        assert ([ps[0]] + Put(ps[1..], p))[1..] == Put(ps[1..], p);
      }
    }
  }

  /** How long an entry waited, as its record says. */
  function WaitedNote<R>(p: Pending<R>): string { "Timed out after " + Integer(p.expiresAt - p.createdAt) + "ms" }

  /** A stored entry is pending again, or was recorded as timed out. */
  ghost predicate Accounted<R>(g: State<R>, p: Pending<R>, now: nat) {
    if p.expiresAt <= now then Record(p.id, p.request, Response(p.id, TimedOut, None, Some(WaitedNote(p)), now), p.createdAt) in g.log
    else Find(g.pending, p.id) == Some(Pending(p.id, p.request, p.createdAt, p.expiresAt, false))
  }

  lemma {:induction false} RestoreAccounts<R>(g: State<R>, stored: seq<Pending<R>>, now: nat, i: nat)
    requires i < |stored| && forall id: nat :: Queued(stored, id) <= 1
    ensures Accounted(Restore(g, stored, now), stored[i], now)
    decreases stored
  {
    hide Persisted, Integer;
    var q := stored[0];
    var r := Record(q.id, q.request, TimeoutResponse(q, now), q.createdAt);
    var next := if q.expiresAt <= now then Recorded(g, r) else g.(pending := Put(g.pending, q.(waiting := false)));
    forall id: nat
      ensures Queued(stored[1..], id) <= 1
    {
      assert Queued(stored, id) == (if q.id == id then 1 else 0) + Queued(stored[1..], id);
    }
    if i == 0 {
      assert Queued(stored, q.id) == 1 + Queued(stored[1..], q.id);
      PutFind(g.pending, q.(waiting := false), q.id);
      RestoredStays(next, stored[1..], now, q.(waiting := false));
      assert q.expiresAt <= now ==> next.log[0] == r;
    } else {
      RestoreAccounts(next, stored[1..], now, i - 1);
      assert stored[i] == stored[1..][i - 1];
    }
  }

  /** A restart turns every entry that was in the queue into a pending entry again or a recorded timeout,
      according to its deadline. */
  lemma RestartAccounts<R>(g: State<R>, mode: Mode, now: nat, i: nat)
    requires Kept(g) && i < |g.saved.pending|
    ensures Accounted(Restart(g, mode, now), g.saved.pending[i], now)
  {
    hide Persisted, Restore, Accounted;
    forall id: nat
      ensures Queued(g.saved.pending, id) <= 1
    {
      assert InOnePlace(g, id);
      PersistedQueued(g.pending, id);
    }
    RestoreAccounts(g.(mode := mode, pending := [], history := Newest(g.saved.history)), g.saved.pending, now, i);
  }

  // ----- what one operation decides

  /** A request is approved at once, or queued with its deadline and a waiting promise, as the mode says:
      never queues, always queues, or queues what the policy wants approved. */
  lemma RequestOutcome<R>(g: State<R>, req: R, requiresApproval: bool, timeout: nat, now: nat)
    requires Kept(g)
    ensures var next := Request(g, req, requiresApproval, timeout, now);
            && next.issued == g.issued + 1
            && if g.mode == Always || (g.mode == Auto && requiresApproval) then
                 Find(next.pending, g.issued) == Some(Pending(g.issued, req, now, now + timeout, true))
                 && next.pending[..|g.pending|] == g.pending && |next.pending| == |g.pending| + 1
                 && next.log == g.log && next.settled == g.settled
               else
                 next.pending == g.pending && next.log == [next.log[0]] + g.log && next.settled == g.settled + [next.log[0].response]
                 && next.log[0] == Record(g.issued, req, next.log[0].response, now)
                 && var a := next.log[0].response;
                    a.id == g.issued && a.decision == Approved && a.approvedBy == Some("agentwall-auto") && a.at == now
                    && a.note == Some(if g.mode == Never then "Auto-approved (mode=never)" else "Auto-approved by policy")
  {
    hide Persisted, Conserved;
    assert Queued(g.pending, g.issued) == 0 by {
      assert InOnePlace(g, g.issued) by { Placed(g, g.issued); }
    }
    FindAppended(g.pending, Pending(g.issued, req, now, now + timeout, true));
  }

  lemma Placed<R>(g: State<R>, id: nat)
    requires Kept(g)
    ensures InOnePlace(g, id)
  {
  }

  lemma {:induction false} FindAppended<R>(ps: seq<Pending<R>>, p: Pending<R>)
    requires Queued(ps, p.id) == 0
    ensures Find(ps + [p], p.id) == Some(p)
    decreases ps
  {
    if ps != [] {
      assert (ps + [p])[1..] == ps[1..] + [p];
      FindAppended(ps[1..], p);
    }
  }

  lemma {:induction false} FindWithout<R>(ps: seq<Pending<R>>, gone: nat, id: nat)
    ensures Find(Without(ps, gone), id) == if id == gone then None else Find(ps, id)
    decreases ps
  {
    if ps != [] {
      FindWithout(ps[1..], gone, id);
      if ps[0].id != gone {
        assert ([ps[0]] + Without(ps[1..], gone))[1..] == Without(ps[1..], gone);
      } else {
        assert [] + Without(ps[1..], gone) == Without(ps[1..], gone);
      }
    }
  }

  /** A response to a queued request records the decision given, takes that request and no other off the
      queue, and settles its promise if one is waiting; a response to anything else changes nothing. */
  lemma RespondOutcome<R>(g: State<R>, id: nat, approve: bool, approvedBy: Option<string>, note: Option<string>, now: nat, other: nat)
    ensures var next := Respond(g, id, approve, approvedBy, note, now);
            match Find(g.pending, id)
            case None => next == g
            case Some(p) =>
              && Find(next.pending, id) == None && (other != id ==> Find(next.pending, other) == Find(g.pending, other))
              && next.log == [next.log[0]] + g.log && next.log[0] == Record(id, p.request, next.log[0].response, p.createdAt)
              && next.log[0].response.id == id && next.log[0].response.at == now
              && next.log[0].response.decision == (if approve then Approved else Denied)
              && next.log[0].response.approvedBy == approvedBy && next.log[0].response.note == note
              && next.settled == (if p.waiting then g.settled + [next.log[0].response] else g.settled)
  {
    hide Persisted;
    FindQueued(g.pending, id);
    FindWithout(g.pending, id, id);
    FindWithout(g.pending, id, other);
  }

  /** A timer that finds its request queued records a timeout nobody approved, takes that request and no other off
      the queue, and settles its promise with that record; one that finds it gone changes nothing. */
  lemma ExpireOutcome<R>(g: State<R>, id: nat, now: nat, other: nat)
    ensures var next := Expire(g, id, now);
            match Find(g.pending, id)
            case None => next == g
            case Some(p) =>
              && Find(next.pending, id) == None && (other != id ==> Find(next.pending, other) == Find(g.pending, other))
              && next.log == [next.log[0]] + g.log && next.log[0] == Record(id, p.request, next.log[0].response, p.createdAt)
              && next.log[0].response == Response(id, TimedOut, None, Some(WaitedNote(p)), now)
              && next.settled == (if p.waiting then g.settled + [next.log[0].response] else g.settled)
  {
    hide Persisted, Integer;
    FindQueued(g.pending, id);
    FindWithout(g.pending, id, id);
    FindWithout(g.pending, id, other);
  }

  lemma {:induction false} RestoreFrame<R>(g: State<R>, stored: seq<Pending<R>>, now: nat)
    ensures var next := Restore(g, stored, now); next.mode == g.mode && next.issued == g.issued && next.settled == g.settled
    decreases stored
  {
    hide Persisted, TimeoutResponse;
    if stored != [] {
      var p := stored[0];
      var made := Record(p.id, p.request, TimeoutResponse(p, now), p.createdAt);
      RestoreFrame(if p.expiresAt <= now then Recorded(g, made) else g.(pending := Put(g.pending, p.(waiting := false))), stored[1..], now);
    }
  }

  /** The mode is the one last set, ids are issued by requests alone, and only promises of this process settle. */
  lemma StepFrame<R>(g: State<R>, op: Op<R>)
    ensures var next := Step(g, op);
            && next.mode == (match op case SetModeOp(mode) => mode case RestartOp(mode, _) => mode case _ => g.mode)
            && next.issued == (if op.RequestOp? then g.issued + 1 else g.issued)
            && next.settled[..|next.settled| - (if |next.settled| > |g.settled| then 1 else 0)] == g.settled
            && (op.SetModeOp? || op.RestartOp? ==> next.settled == g.settled)
            && (op.SetModeOp? ==> next.pending == g.pending && next.log == g.log && next.history == g.history && next.saved == g.saved)
  {
    hide Persisted, Restore, TimeoutResponse, AutoResponse;
    match op
    case RestartOp(mode, now) => RestoreFrame(g.(mode := mode, pending := [], history := Newest(g.saved.history)), g.saved.pending, now);
    case _ =>
  }

  // ----- every record has its cause

  /** What a record of the log is owed to: an answer to a queued request, a request the mode lets through, a timer,
      or a restart past the deadline of a stored entry. */
  ghost predicate Caused<R>(g: State<R>, op: Op<R>, r: Record<R>) {
    match op
    case RespondOp(id, approve, approvedBy, note, now) =>
      && Entry(g.pending, r) && r.id == id && r.response == Response(id, if approve then Approved else Denied, approvedBy, note, now)
    case RequestOp(req, needs, _, now) =>
      && r.id == g.issued && r.request == req && r.createdAt == now && r.response.decision == Approved
      && (g.mode == Never || (g.mode == Auto && !needs)) && r.response.approvedBy == Some("agentwall-auto")
    case TimeoutOp(id, now) =>
      && Entry(g.pending, r) && r.id == id && r.response.decision == TimedOut && r.response.approvedBy == None
    case RestartOp(_, now) =>
      && Late(g.saved.pending, r, now) && r.response.decision == TimedOut && r.response.approvedBy == None
    case SetModeOp(_) => false
  }

  ghost predicate IsFor<R>(p: Pending<R>, r: Record<R>) { p.id == r.id && p.request == r.request && p.createdAt == r.createdAt }

  /** A queued request the record is for. */
  ghost predicate Entry<R>(ps: seq<Pending<R>>, r: Record<R>) { exists p :: p in ps && IsFor(p, r) }

  /** One whose deadline has passed. */
  ghost predicate Late<R>(ps: seq<Pending<R>>, r: Record<R>, now: nat) { exists p :: p in ps && IsFor(p, r) && p.expiresAt <= now }

  lemma {:induction false} Finds<R>(ps: seq<Pending<R>>, id: nat)
    ensures Find(ps, id).Some? ==> Find(ps, id).value in ps && Find(ps, id).value.id == id
    decreases ps
  {
    if ps != [] { Finds(ps[1..], id); }
  }

  lemma {:induction false} RestoreCause<R>(g: State<R>, stored: seq<Pending<R>>, now: nat, r: Record<R>)
    requires r in Restore(g, stored, now).log
    ensures r in g.log || (Late(stored, r, now) && r.response.decision == TimedOut && r.response.approvedBy == None)
    decreases stored
  {
    hide Persisted, TimeoutNote;
    if stored != [] {
      var p := stored[0];
      var made := Record(p.id, p.request, TimeoutResponse(p, now), p.createdAt);
      var next := if p.expiresAt <= now then Recorded(g, made) else g.(pending := Put(g.pending, p.(waiting := false)));
      RestoreCause(next, stored[1..], now, r);
      if r in next.log && r !in g.log {
        assert r == made;
        assert p in stored && IsFor(p, r);
      }
    }
  }

  lemma StepCause<R>(g: State<R>, op: Op<R>, r: Record<R>)
    requires r in Step(g, op).log
    ensures r in g.log || Caused(g, op, r)
  {
    hide Persisted, Restore, TimeoutNote;
    match op
    case RequestOp(_, _, _, _) =>
    case RespondOp(id, _, _, _, _) => Finds(g.pending, id);
    case TimeoutOp(id, _) => Finds(g.pending, id);
    case SetModeOp(_) =>
    case RestartOp(mode, now) => RestoreCause(g.(mode := mode, pending := [], history := Newest(g.saved.history)), g.saved.pending, now, r);
  }

  lemma {:induction false} RunSnoc<R>(g: State<R>, ops: seq<Op<R>>, op: Op<R>)
    ensures Run(g, ops + [op]) == Step(Run(g, ops), op)
    decreases |ops|
  {
    hide Step;
    if ops == [] {
      assert ops + [op] == [op] && [op][1..] == [];
    } else {
      assert (ops + [op])[1..] == ops[1..] + [op];
      RunSnoc(Step(g, ops[0]), ops[1..], op);
    }
  }

  /** Over any run every record has its cause: nothing is approved, denied or timed out of the gate's own accord. */
  lemma {:induction false} EveryRecordHasItsCause<R>(mode: Mode, ops: seq<Op<R>>, r: Record<R>) returns (i: nat)
    requires r in Run(Fresh<R>(mode), ops).log
    ensures i < |ops| && Caused(Run(Fresh<R>(mode), ops[..i]), ops[i], r)
    decreases |ops|
  {
    hide Step, Caused;
    var n := |ops| - 1;
    assert ops != [];
    assert ops == ops[..n] + [ops[n]];
    RunSnoc(Fresh<R>(mode), ops[..n], ops[n]);
    StepCause(Run(Fresh<R>(mode), ops[..n]), ops[n], r);
    if r in Run(Fresh<R>(mode), ops[..n]).log {
      i := EveryRecordHasItsCause(mode, ops[..n], r);
      assert ops[..n][..i] == ops[..i];
    } else {
      i := n;
    }
  }

  // ----- close

  predicate NoRequest<R>(ops: seq<Op<R>>) { forall i | 0 <= i < |ops| :: !ops[i].RequestOp? }

  predicate NoRestart<R>(ops: seq<Op<R>>) { forall i | 0 <= i < |ops| :: !ops[i].RestartOp? }

  /** One step of a closed gate: it saves again exactly when it is a request. */
  lemma ClosedStep<R>(g: State<R>, op: Op<R>, id: nat)
    requires !op.RestartOp? && Queued(g.pending, id) == 0 && id < g.issued
    ensures var next := Step(g, op);
            && Queued(next.pending, id) == 0 && id < next.issued
            && (Queued(g.saved.pending, id) == 0 || op.RequestOp? ==> Queued(next.saved.pending, id) == 0)
            && (g.pending == [] && !op.RequestOp? ==> next.pending == [] && next.saved == g.saved)
  {
    hide Persisted, TimeoutResponse, AutoResponse, Newest;
    var next := Step(g, op);
    match op
    case RequestOp(req, needs, timeout, now) =>
      var p := Pending(g.issued, req, now, now + timeout, true);
      QueuedConcat(g.pending, [p], id);
      assert [p][1..] == [];
      PersistedQueued(next.pending, id);
    case RespondOp(k, approve, approvedBy, note, now) =>
      WithoutQueued(g.pending, k, id);
      FindQueued(g.pending, k);
      PersistedQueued(Without(g.pending, k), id);
    case TimeoutOp(k, now) =>
      WithoutQueued(g.pending, k, id);
      FindQueued(g.pending, k);
      PersistedQueued(Without(g.pending, k), id);
    case SetModeOp(mode) =>
  }

  lemma {:induction false} ClosedRun<R>(g: State<R>, ops: seq<Op<R>>, id: nat)
    requires NoRestart(ops) && Queued(g.pending, id) == 0 && id < g.issued
    ensures Queued(g.saved.pending, id) == 0 || !NoRequest(ops) ==> Queued(Run(g, ops).saved.pending, id) == 0
    ensures g.pending == [] && NoRequest(ops) ==> Run(g, ops).saved == g.saved
    decreases ops
  {
    hide Step;
    if ops != [] {
      ClosedStep(g, ops[0], id);
      ClosedRun(Step(g, ops[0]), ops[1..], id);
      if !NoRequest(ops) && !ops[0].RequestOp? {
        var i :| 0 <= i < |ops| && ops[i].RequestOp?;
        assert ops[1..][i - 1] == ops[i];
      }
    }
  }

  /** close leaves the queue to the next process only while no further request arrives: an entry queued at
      close time is still in the store file exactly when no request came in between. */
  lemma ClosedQueueSurvivesExactly<R>(g: State<R>, ops: seq<Op<R>>, i: nat)
    requires Kept(g) && NoRestart(ops) && i < |g.pending|
    ensures Queued(Run(Close(g), ops).saved.pending, g.pending[i].id) > 0 <==> NoRequest(ops)
  {
    hide Run, Persisted;
    var id := g.pending[i].id;
    assert InOnePlace(g, id);
    IndexQueued(g.pending, i);
    PersistedQueued(g.pending, id);
    ClosedRun(Close(g), ops, id);
  }

  lemma {:induction false} IndexQueued<R>(ps: seq<Pending<R>>, i: nat)
    requires i < |ps|
    ensures Queued(ps, ps[i].id) > 0
    decreases ps
  {
    if i > 0 {
      IndexQueued(ps[1..], i - 1);
      assert ps[1..][i - 1] == ps[i];
    }
  }

  // ----- the gate as an object

  /** ApprovalQueueStore over its file. */
  class ApprovalQueueStore<R> {
    var file: Saved<R>

    constructor ()
      ensures file == Saved([], [])
    {
      file := Saved([], []);
    }

    method Load() returns (s: Saved<R>)
      ensures s == file
    {
      return file;
    }

    method Save(pending: seq<Pending<R>>, history: seq<Record<R>>)
      modifies this
      ensures file == Saved(pending, history)
    {
      file := Saved(pending, history);
    }
  }

  class ApprovalGate<R> {
    var mode: Mode
    var pending: seq<Pending<R>>
    var history: seq<Record<R>>
    const store: ApprovalQueueStore<R>
    const defaultTimeout: nat
    var issued: nat
    ghost var log: seq<Record<R>>
    ghost var settled: seq<Response>

    ghost function Abstract(): State<R>
      reads this, store
    {
      State(mode, pending, history, store.file, log, settled, issued)
    }

    /** A new process: `issued`, `log` and `settled` carry the history of the ones before it. */
    constructor (mode: Mode, defaultTimeout: nat, store: ApprovalQueueStore<R>, now: nat,
                 issued: nat, ghost log: seq<Record<R>>, ghost settled: seq<Response>)
      modifies store
      ensures this.store == store && this.defaultTimeout == defaultTimeout
      ensures Abstract() == Restart(State(mode, [], [], old(store.file), log, settled, issued), mode, now)
    {
      this.mode, this.defaultTimeout, this.store, this.issued := mode, defaultTimeout, store, issued;
      this.log, this.settled := log, settled;
      pending, history := [], [];
      new;
      RestorePersistedState(now);
    }

    /** restorePersistedState. */
    method RestorePersistedState(now: nat)
      modifies this, store
      ensures Abstract() == Restart(old(Abstract()), old(mode), now)
    {
      hide Persisted, TimeoutResponse;
      var state := store.Load();
      history := Newest(state.history);
      pending := [];
      ghost var target := Restart(old(Abstract()), mode, now);
      assert state.pending[0..] == state.pending;
      for i := 0 to |state.pending|
        invariant Restore(Abstract(), state.pending[i..], now) == target
      {
        assert state.pending[i..][1..] == state.pending[i + 1..] && state.pending[i..][0] == state.pending[i];
        var p := state.pending[i];
        if p.expiresAt <= now {
          RecordDecision(Record(p.id, p.request, TimeoutResponse(p, now), p.createdAt));
        } else {
          pending := Put(pending, p.(waiting := false));
        }
      }
      PersistState();
    }

    /** request. Returns the id, and the response at once when it is automatic. */
    method RequestApproval(req: R, requiresApproval: bool, timeout: Option<nat>, now: nat) returns (id: nat, auto: Option<Response>)
      modifies this, store
      ensures Abstract() == Request(old(Abstract()), req, requiresApproval,
                                    if timeout.Some? then timeout.value else defaultTimeout, now)
      ensures id == old(issued)
      ensures auto == if AutoApproves(old(mode), requiresApproval) then Some(AutoResponse(old(mode), id, now)) else None
    {
      hide Persisted;
      id := issued;
      issued := issued + 1;
      if mode == Never {
        var a := Response(id, Approved, Some("agentwall-auto"), Some("Auto-approved (mode=never)"), now);
        RecordDecision(Record(id, req, a, now));
        settled := settled + [a];
        return id, Some(a);
      }
      if mode == Auto && !requiresApproval {
        var a := Response(id, Approved, Some("agentwall-auto"), Some("Auto-approved by policy"), now);
        RecordDecision(Record(id, req, a, now));
        settled := settled + [a];
        return id, Some(a);
      }
      var ms := if timeout.Some? then timeout.value else defaultTimeout;
      pending := pending + [Pending(id, req, now, now + ms, true)];
      PersistState();
      return id, None;
    }

    /** respond. */
    method RespondTo(id: nat, approve: bool, approvedBy: Option<string>, note: Option<string>, now: nat) returns (r: Option<Response>)
      modifies this, store
      ensures Abstract() == Respond(old(Abstract()), id, approve, approvedBy, note, now)
      ensures r.Some? <==> Find(old(pending), id).Some?
    {
      hide Persisted, Find, Without;
      var entry := Find(pending, id);
      if entry.None? { return None; }
      FindQueued(pending, id);
      pending := Without(pending, id);
      var a := Response(id, if approve then Approved else Denied, approvedBy, note, now);
      RecordDecision(Record(id, entry.value.request, a, entry.value.createdAt));
      if entry.value.waiting { settled := settled + [a]; }
      return Some(a);
    }

    /** The timer of an entry fires. */
    method TimerFires(id: nat, now: nat)
      modifies this, store
      ensures Abstract() == Expire(old(Abstract()), id, now)
    {
      hide Persisted, Find, Without;
      var entry := Find(pending, id);
      if entry.None? { return; }
      FindQueued(pending, id);
      pending := Without(pending, id);
      var a := TimeoutResponse(entry.value, now);
      RecordDecision(Record(id, entry.value.request, a, entry.value.createdAt));
      if entry.value.waiting { settled := settled + [a]; }
    }

    method SetMode(mode: Mode)
      modifies this`mode
      ensures Abstract() == old(Abstract()).(mode := mode)
    {
      this.mode := mode;
    }

    method CloseQueue()
      modifies this`pending
      ensures Abstract() == Close(old(Abstract()))
    {
      pending := [];
    }

    /** recordDecision. */
    method RecordDecision(r: Record<R>)
      modifies this`history, this`log, store
      ensures Abstract() == Recorded(old(Abstract()), r)
    {
      hide Persisted;
      history := [r] + history;
      history := if |history| <= KEPT then history else history[..KEPT];
      log := [r] + log;
      PersistState();
    }

    /** persistState. */
    method PersistState()
      modifies store
      ensures Abstract() == Persist(old(Abstract()))
    {
      var sorted: seq<Pending<R>> := [];
      var i := |pending|;
      assert pending[i..] == [];
      while i > 0
        invariant 0 <= i <= |pending| && sorted == Persisted(pending[i..])
      {
        i := i - 1;
        assert pending[i..][0] == pending[i] && pending[i..][1..] == pending[i + 1..];
        sorted := InsertDesc(pending[i].(waiting := false), sorted);
      }
      assert pending[0..] == pending;
      store.Save(sorted, history);
    }
  }
}
