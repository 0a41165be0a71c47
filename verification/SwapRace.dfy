/** Executors running the direct swap of one request at once. */
module SwapRace {
  import opened Common
  import opened RoomTrigger
  import opened Swaps

  // Each executor holds the request row's lock from its status check to its
  // end. Steps of different executors interleave in any order, and any executor
  // may die at any point, which rolls its transaction back.

  type Executor = nat

  /** Where an executor's transaction stands. */
  datatype Phase = Waiting | Checked | Vacated | TargetMoved | RequesterMoved | Recorded | Committed | Aborted

  /** Committed data, the row lock, and each executor's phase and uncommitted writes. */
  datatype Race = Race(
    rooms: Housing,
    status: RequestStatus,
    history: seq<History>,
    lock: Option<Executor>,
    phases: map<Executor, Phase>,
    writes: Housing)

  /** The request being executed. */
  datatype Request = Request(id: int, requester: StudentId, target: StudentId)

  datatype Event = Step(executor: Executor) | Death(executor: Executor)

  function PhaseOf(s: Race, e: Executor): Phase {
    if e in s.phases then s.phases[e] else Waiting
  }

  predicate InTransaction(p: Phase) {
    p.Checked? || p.Vacated? || p.TargetMoved? || p.RequesterMoved? || p.Recorded?
  }

  /** What the lock holder sees: committed rooms under its own writes. */
  function Seen(s: Race): Housing {
    s.rooms + s.writes
  }

  function Goto(s: Race, e: Executor, p: Phase): Race {
    s.(phases := s.phases[e := p])
  }

  function Rollback(s: Race, e: Executor): Race {
    Goto(s, e, Aborted).(lock := None, writes := map[])
  }

  /** One student write; the trigger may turn it into a rollback. */
  function Write(s: Race, capacities: Capacities, e: Executor, id: StudentId, room: Option<RoomId>, next: Phase): Race {
    if id in Seen(s) && Allows(Seen(s), capacities, id, room)
    then Goto(s, e, next).(writes := s.writes[id := room])
    else Rollback(s, e)
  }

  function Rows(q: Request, h: Housing): seq<History> {
    if q.requester in h && q.target in h && h[q.requester].Some? && h[q.target].Some? then
      var ra, rb := h[q.requester].value, h[q.target].value;
      [History(q.requester, ra, rb, Direct, Some(q.id), None), History(q.target, rb, ra, Direct, Some(q.id), None)]
    else []
  }

  function Next(s: Race, capacities: Capacities, q: Request, event: Event): Race {
    var e := event.executor;
    if event.Death? then
      if InTransaction(PhaseOf(s, e)) then Rollback(s, e)
      else if PhaseOf(s, e).Waiting? then Goto(s, e, Aborted)
      else s
    else
      match PhaseOf(s, e)
      case Waiting =>
        if s.lock.Some? then s
        else if !s.status.Accepted? then Goto(s, e, Aborted)
        else if q.requester !in s.rooms || q.target !in s.rooms || q.requester == q.target then Goto(s, e, Aborted)
        else if s.rooms[q.requester].None? || s.rooms[q.target].None? then Goto(s, e, Aborted)
        else Goto(s, e, Checked).(lock := Some(e))
      case Checked => Write(s, capacities, e, q.requester, None, Vacated)
      case Vacated =>
        Write(s, capacities, e, q.target, if q.requester in s.rooms then s.rooms[q.requester] else None, TargetMoved)
      case TargetMoved =>
        Write(s, capacities, e, q.requester, if q.target in s.rooms then s.rooms[q.target] else None, RequesterMoved)
      case RequesterMoved => Goto(s, e, Recorded)
      case Recorded =>
        Goto(s, e, Committed).(rooms := Seen(s), history := s.history + Rows(q, s.rooms), status := Completed,
                               lock := None, writes := map[])
      case Committed => s
      case Aborted => s
  }

  function Play(s: Race, capacities: Capacities, q: Request, schedule: seq<Event>): Race {
    if schedule == [] then s
    else Next(Play(s, capacities, q, schedule[..|schedule| - 1]), capacities, q, schedule[|schedule| - 1])
  }

  /** An accepted request, two distinct housed students, nobody started. */
  ghost predicate Start(s: Race, capacities: Capacities, q: Request) {
    && WithinCapacity(s.rooms, capacities)
    && q.requester in s.rooms && q.target in s.rooms && q.requester != q.target
    && s.rooms[q.requester].Some? && s.rooms[q.target].Some?
    && s.status.Accepted? && s.lock.None? && s.phases == map[] && s.writes == map[]
  }

  /** The lock holder's writes at each phase. */
  function WritesAt(h: Housing, q: Request, p: Phase): Housing
    requires q.requester in h && q.target in h
  {
    match p
    case Vacated => map[q.requester := None]
    case TargetMoved => map[q.requester := None, q.target := h[q.requester]]
    case RequesterMoved => map[q.requester := h[q.target], q.target := h[q.requester]]
    case Recorded => map[q.requester := h[q.target], q.target := h[q.requester]]
    case _ => map[]
  }

  ghost predicate NobodyCommitted(s: Race) {
    forall e: Executor :: !PhaseOf(s, e).Committed?
  }

  ghost predicate OneCommitted(s: Race) {
    exists e: Executor :: PhaseOf(s, e).Committed? && forall f: Executor :: PhaseOf(s, f).Committed? ==> f == e
  }

  /** Either nothing has been committed, or exactly one executor has and its exchange is all there is. */
  ghost predicate CommitState(s0: Race, q: Request, s: Race)
    requires q.requester in s0.rooms && q.target in s0.rooms
  {
    || (s.status.Accepted? && s.rooms == s0.rooms && s.history == s0.history && NobodyCommitted(s))
    || (s.status.Completed? && s.lock.None? && OneCommitted(s)
        && s.rooms == Exchanged(s0.rooms, q.requester, q.target) && s.history == s0.history + Rows(q, s0.rooms))
  }

  ghost predicate LockState(s0: Race, q: Request, s: Race)
    requires q.requester in s0.rooms && q.target in s0.rooms
  {
    && (forall e: Executor :: InTransaction(PhaseOf(s, e)) <==> s.lock == Some(e))
    && s.writes == (if s.lock.Some? then WritesAt(s0.rooms, q, PhaseOf(s, s.lock.value)) else map[])
  }

  ghost predicate Invariant(s0: Race, q: Request, s: Race)
    requires q.requester in s0.rooms && q.target in s0.rooms
  {
    CommitState(s0, q, s) && LockState(s0, q, s)
  }

  lemma PhaseAfter(s: Race, e: Executor, p: Phase)
    ensures forall f: Executor :: PhaseOf(Goto(s, e, p), f) == if f == e then p else PhaseOf(s, f)
  {
  }

  /** None of the lock holder's writes is stopped by the trigger. */
  lemma WritesPass(s0: Race, capacities: Capacities, q: Request, s: Race)
    requires Start(s0, capacities, q) && s.rooms == s0.rooms && s.lock.Some?
    requires var p := PhaseOf(s, s.lock.value); s.writes == WritesAt(s0.rooms, q, p)
    ensures var p := PhaseOf(s, s.lock.value); var h := s0.rooms; var a, b := q.requester, q.target;
            && Seen(s).Keys == h.Keys
            && (p.Checked? ==> Allows(Seen(s), capacities, a, None))
            && (p.Vacated? ==> Allows(Seen(s), capacities, b, h[a]))
            && (p.TargetMoved? ==> Allows(Seen(s), capacities, a, h[b]))
            && (p.Recorded? ==> Seen(s) == Exchanged(h, a, b))
  {
    ExchangePasses(s0.rooms, capacities, q.requester, q.target);
    SeenAt(s0.rooms, q, PhaseOf(s, s.lock.value));
  }

  lemma SeenAt(h: Housing, q: Request, p: Phase)
    requires q.requester in h && q.target in h && q.requester != q.target
    ensures var a, b := q.requester, q.target; var seen := h + WritesAt(h, q, p);
            && seen.Keys == h.Keys
            && (p.Checked? ==> seen == h)
            && (p.Vacated? ==> seen == h[a := None])
            && (p.TargetMoved? ==> seen == h[a := None][b := h[a]])
            && (p.Recorded? ==> seen == Exchanged(h, a, b))
  {
  }

  lemma StepKeeps(s0: Race, capacities: Capacities, q: Request, s: Race, event: Event)
    requires Start(s0, capacities, q) && Invariant(s0, q, s)
    ensures Invariant(s0, q, Next(s, capacities, q, event))
  {
    var e := event.executor;
    var p := PhaseOf(s, e);
    var s' := Next(s, capacities, q, event);
    if event.Death? || !InTransaction(p) {
      IdleOrDeathKeeps(s0, capacities, q, s, event);
    } else {
      assert s.lock == Some(e);
      WritesPass(s0, capacities, q, s);
      if p.Recorded? {
        CommitKeeps(s0, q, s, s', e);
      } else {
        WriteKeeps(s0, capacities, q, s, e);
      }
    }
  }

  lemma IdleOrDeathKeeps(s0: Race, capacities: Capacities, q: Request, s: Race, event: Event)
    requires Start(s0, capacities, q) && Invariant(s0, q, s)
    requires event.Death? || !InTransaction(PhaseOf(s, event.executor))
    ensures Invariant(s0, q, Next(s, capacities, q, event))
  {
    var e := event.executor;
    PhaseAfter(s, e, Aborted);
    PhaseAfter(s, e, Checked);
    var s' := Next(s, capacities, q, event);
    if s' != s {
      assert forall f: Executor :: PhaseOf(s', f).Committed? <==> PhaseOf(s, f).Committed?;
    }
  }

  lemma WriteKeeps(s0: Race, capacities: Capacities, q: Request, s: Race, e: Executor)
    requires Start(s0, capacities, q) && Invariant(s0, q, s) && s.lock == Some(e)
    requires InTransaction(PhaseOf(s, e)) && !PhaseOf(s, e).Recorded?
    ensures Invariant(s0, q, Next(s, capacities, q, Step(e)))
  {
    WritesPass(s0, capacities, q, s);
    var p := PhaseOf(s, e);
    var s' := Next(s, capacities, q, Step(e));
    PhaseAfter(s, e, if p.Checked? then Vacated else if p.Vacated? then TargetMoved else if p.TargetMoved? then RequesterMoved else Recorded);
    assert forall f: Executor :: PhaseOf(s', f).Committed? <==> PhaseOf(s, f).Committed?;
  }

  lemma CommitKeeps(s0: Race, q: Request, s: Race, s': Race, e: Executor)
    requires q.requester in s0.rooms && q.target in s0.rooms
    requires Invariant(s0, q, s) && s.lock == Some(e) && s.status.Accepted?
    requires Seen(s) == Exchanged(s0.rooms, q.requester, q.target)
    requires s' == Goto(s, e, Committed).(rooms := Seen(s), history := s.history + Rows(q, s.rooms), status := Completed,
                                          lock := None, writes := map[])
    ensures Invariant(s0, q, s')
  {
    PhaseAfter(s, e, Committed);
    assert PhaseOf(s', e).Committed?;
    forall f: Executor | PhaseOf(s', f).Committed?
      ensures f == e
    {
      assert !PhaseOf(s, f).Committed?;
    }
  }

  lemma {:induction false} PlayKeeps(s0: Race, capacities: Capacities, q: Request, schedule: seq<Event>)
    requires Start(s0, capacities, q)
    ensures Invariant(s0, q, Play(s0, capacities, q, schedule))
  {
    if schedule != [] {
      PlayKeeps(s0, capacities, q, schedule[..|schedule| - 1]);
      StepKeeps(s0, capacities, q, Play(s0, capacities, q, schedule[..|schedule| - 1]), schedule[|schedule| - 1]);
    }
  }

  /**
   Over every interleaving: at most one executor commits. If one did, the two
   rooms are exchanged once and exactly two history rows were added; if none
   did, nothing changed. No committed state is over capacity.
   */
  lemma AtMostOneCommits(s0: Race, capacities: Capacities, q: Request, schedule: seq<Event>)
    requires Start(s0, capacities, q)
    ensures var s := Play(s0, capacities, q, schedule);
            && (forall e: Executor, f: Executor :: PhaseOf(s, e).Committed? && PhaseOf(s, f).Committed? ==> e == f)
            && ((exists e: Executor :: PhaseOf(s, e).Committed?) ==>
                  var a, b := s0.rooms[q.requester].value, s0.rooms[q.target].value;
                  && s.rooms == s0.rooms[q.requester := Some(b)][q.target := Some(a)] && s.status == Completed
                  && s.history == s0.history + [History(q.requester, a, b, Direct, Some(q.id), None), History(q.target, b, a, Direct, Some(q.id), None)])
            && ((forall e: Executor :: !PhaseOf(s, e).Committed?) ==>
                  s.rooms == s0.rooms && s.history == s0.history && s.status.Accepted?)
            && WithinCapacity(s.rooms, capacities)
  {
    PlayKeeps(s0, capacities, q, schedule);
    ExchangeRun(s0.rooms, capacities, q.requester, q.target);
    RunStaysWithin(s0.rooms, capacities, ExchangeUpdates(s0.rooms, q.requester, q.target));
  }
}
