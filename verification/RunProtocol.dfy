/** One allocation run between the service, the engine and its store. */
module RunProtocol {
  import opened Common
  import opened RunNames

  // Every webhook delivery, every reconciliation of the run, every operation on
  // the key store and every stage of the engine's background job is one step.

  /** A stored result: the student and the room, if any. */
  type Row = (StudentId, Option<RoomId>)

  // ---------- The core service's side ----------

  /** The run's row and its result rows; status None once the run is deleted. saves counts executions of the save. */
  datatype Core = Core(status: Option<RunStatus>, stored: seq<Row>, saves: nat)

  datatype Payload = CompletedPayload(rows: seq<Row>) | FailedPayload | OtherPayload

  datatype KeyState = KeyState(status: RunStatus, rows: seq<Row>)

  /** What the service learns when it asks the engine about a run. */
  datatype Reply = Unreachable | HttpError | NoSuchRun | Found(state: KeyState)

  predicate IsOpen(c: Core) {
    c.status == Some(Queued) || c.status == Some(Running)
  }

  function SaveRows(c: Core, rows: seq<Row>): Core {
    c.(stored := c.stored + rows, saves := c.saves + 1)
  }

  /** updateRunStatus: whatever the status was; nothing if the run is gone. */
  function SetStatus(c: Core, status: RunStatus): Core {
    if c.status.Some? then c.(status := Some(status)) else c
  }

  function Handle(c: Core, p: Payload): Core {
    if !IsOpen(c) then c
    else
      match p
      case CompletedPayload(rows) => SetStatus(SaveRows(c, rows), Completed)
      case FailedPayload => SetStatus(c, Failed)
      case OtherPayload => c
  }

  function Reconcile(c: Core, reply: Reply): Core {
    if !IsOpen(c) then c
    else
      match reply
      case Found(state) =>
        (match state.status
         case Completed => SetStatus(SaveRows(c, state.rows), Completed)
         case Failed => SetStatus(c, Failed)
         case _ => c)
      case _ => SetStatus(c, Failed)
  }

  // ---------- The engine's store ----------

  datatype Updates = Updates(status: RunStatus, rows: Option<seq<Row>>)

  function Merge(state: KeyState, u: Updates): KeyState {
    KeyState(u.status, if u.rows.Some? then u.rows.value else state.rows)
  }

  function MergeKey(key: Option<KeyState>, u: Updates): Option<KeyState> {
    if key.Some? then Some(Merge(key.value, u)) else None
  }

  // ---------- All parties together ----------

  /** How far the service's dispatch of the run is. */
  datatype Dispatch = Created | Marked | Awaiting | Over

  /** How far the engine's background task is. */
  datatype Task = NotStarted | Started | Computing | Computed | Persisted | Delivered | Raised | RaisedDelivered | Ended

  datatype World = World(
    core: Core,
    dispatch: Dispatch,
    request: bool,
    key: Option<KeyState>,
    task: Task,
    inFlight: set<Payload>,
    output: Option<seq<Row>>)

  datatype Step =
    | MarkRunning | PostRequest | LoseRequest | DispatchDone | DispatchError
    | Accept | TaskRuns | Compute(rows: seq<Row>) | Persist | PostResults | DeleteKey | KeepKey
    | TaskRaises | PostFailure | TaskDies | LoseKey
    | Webhook(payload: Payload) | Restart(reply: Reply) | DeleteRun

  const START := World(Core(Some(Queued), [], 0), Created, false, None, NotStarted, {}, None)

  /** What the engine answers about the run at this moment, if it answers properly. */
  function HonestReply(key: Option<KeyState>): Reply {
    if key.Some? then Found(key.value) else NoSuchRun
  }

  /** Whether the step can happen; messages may be delivered late, repeatedly, or never. */
  predicate Enabled(w: World, s: Step) {
    match s
    case MarkRunning => w.dispatch.Created?
    case PostRequest => w.dispatch.Marked?
    case LoseRequest => w.request
    case DispatchDone => w.dispatch.Awaiting?
    case DispatchError => w.dispatch.Marked? || w.dispatch.Awaiting?
    case Accept => w.request
    case TaskRuns => w.task.Started?
    case Compute(_) => w.task.Computing?
    case Persist => w.task.Computed?
    case PostResults => w.task.Persisted? && w.key.Some?
    case DeleteKey => w.task.Delivered? || w.task.RaisedDelivered?
    case KeepKey => w.task.Delivered? || w.task.RaisedDelivered?
    case TaskRaises => w.task.Started? || w.task.Computing? || w.task.Computed? || w.task.Persisted?
    case PostFailure => w.task.Raised?
    case TaskDies => !w.task.NotStarted?
    case LoseKey => true
    case Webhook(p) => p in w.inFlight
    case Restart(reply) => reply.Unreachable? || reply.HttpError? || reply == HonestReply(w.key)
    case DeleteRun => true
  }

  function Next(w: World, s: Step): World
    requires Enabled(w, s)
  {
    match s
    case MarkRunning => w.(core := SetStatus(w.core, Running), dispatch := Marked)
    case PostRequest => w.(dispatch := Awaiting, request := true)
    case LoseRequest => w.(request := false)
    case DispatchDone => w.(dispatch := Over)
    case DispatchError => w.(core := SetStatus(w.core, Failed), dispatch := Over)
    case Accept => w.(request := false, key := Some(KeyState(Queued, [])), task := Started)
    case TaskRuns => w.(key := MergeKey(w.key, Updates(Running, None)), task := Computing)
    case Compute(rows) => w.(output := Some(rows), task := Computed)
    case Persist => w.(key := MergeKey(w.key, Updates(Completed, w.output)), task := Persisted)
    case PostResults => w.(inFlight := w.inFlight + {CompletedPayload(w.key.value.rows)}, task := Delivered)
    case DeleteKey => w.(key := None, task := Ended)
    case KeepKey => w.(task := Ended)
    case TaskRaises => w.(task := Raised)
    case PostFailure => w.(key := MergeKey(w.key, Updates(Failed, None)), inFlight := w.inFlight + {FailedPayload}, task := RaisedDelivered)
    case TaskDies => w.(task := Ended)
    case LoseKey => w.(key := None)
    case Webhook(p) => w.(core := Handle(w.core, p))
    case Restart(reply) => w.(core := Reconcile(w.core, reply), dispatch := Over)
    case DeleteRun => w.(core := w.core.(status := None, stored := []))
  }

  /** What holds whatever happens: at most one save, and a completed run holds what the engine computed. */
  ghost predicate SavedOnce(w: World) {
    && w.core.saves <= 1
    && (w.core.status == Some(Completed) ==> w.core.saves == 1 && w.output == Some(w.core.stored))
    && (IsOpen(w.core) || w.output.None? ==> w.core.saves == 0 && w.core.stored == [])
  }

  /** The full promise: and nothing has been saved for a run that is not completed. */
  ghost predicate ExactlyOnce(w: World) {
    && SavedOnce(w)
    && (w.core.status != Some(Completed) ==> w.core.stored == [])
    && (w.core.status.Some? && w.core.status != Some(Completed) ==> w.core.saves == 0)
  }

  /** Whoever carries results carries the engine's output. */
  ghost predicate CarriesOutput(w: World) {
    && (forall p :: p in w.inFlight && p.CompletedPayload? ==> w.output == Some(p.rows))
    && (w.key.Some? && w.key.value.status.Completed? ==> w.output == Some(w.key.value.rows))
    && (w.task.Persisted? && w.key.Some? ==> w.key.value.status.Completed?)
  }

  /** The run is started at most once in the engine, and computed at most once. */
  ghost predicate OneTask(w: World) {
    && (w.dispatch.Created? || w.dispatch.Marked? ==> !w.request && w.task.NotStarted?)
    && (w.request ==> w.task.NotStarted?)
    && (w.task.NotStarted? || w.task.Started? || w.task.Computing? ==> w.output.None?)
    && (w.task.NotStarted? ==> w.key.None?)
    && (w.task.Computed? || w.task.Persisted? ==> w.output.Some?)
    && (w.task.Started? || w.task.Computing? || w.task.Computed? ==> w.key.Some? ==> !w.key.value.status.Completed?)
  }

  /** Nothing is on its way before the engine has started, and the first status change is the service's own. */
  ghost predicate Quiet(w: World) {
    && (w.task.NotStarted? ==> w.inFlight == {})
    && (w.dispatch.Created? ==> w.core.status == Some(Queued) || w.core.status.None?)
  }

  ghost predicate Sane(w: World) {
    SavedOnce(w) && CarriesOutput(w) && OneTask(w) && Quiet(w)
  }

  /** Every step of every party keeps this. */
  lemma StepKeeps(w: World, s: Step)
    requires Sane(w) && Enabled(w, s)
    ensures Sane(Next(w, s))
  {
    match s
    case Compute(rows) =>
      assert forall p :: p in w.inFlight ==> !p.CompletedPayload?;
    case Webhook(p) =>
      if p.CompletedPayload? {
        assert [] + p.rows == p.rows;
      }
    case Restart(reply) =>
      if reply.Found? {
        assert [] + reply.state.rows == reply.state.rows;
      }
    case _ =>
  }

  /**
   How an open run is closed. The engine's results, by webhook or found by a
   restart, complete it with exactly what the engine computed; a reported or
   found failure, and at a restart an engine that is silent or does not know
   the run, fail it with nothing saved; nothing else they say changes it.
   */
  lemma OpenRunSettles(w: World, s: Step)
    requires Sane(w) && Enabled(w, s) && (w.core.status == Some(Queued) || w.core.status == Some(Running))
    requires s.Webhook? || s.Restart?
    ensures var done := (s.Webhook? && s.payload.CompletedPayload?) || (s.Restart? && s.reply.Found? && s.reply.state.status == Completed);
            var broken := (s.Webhook? && s.payload.FailedPayload?) || (s.Restart? && (!s.reply.Found? || s.reply.state.status == Failed));
            var core := Next(w, s).core;
            && (done ==> core.status == Some(Completed) && w.output == Some(core.stored) && core.saves == 1)
            && (broken ==> core.status == Some(Failed) && core.stored == [] && core.saves == 0)
            && (!done && !broken ==> core == w.core)
    ensures s.Restart? && s.reply.Found? ==> w.key == Some(s.reply.state)
  {
    StepKeeps(w, s);
    if s.Webhook? && s.payload.CompletedPayload? {
      assert [] + s.payload.rows == s.payload.rows;
    }
    if s.Restart? && s.reply.Found? {
      assert [] + s.reply.state.rows == s.reply.state.rows;
    }
  }

  /** A dispatch error that finds the run already completed. */
  predicate LateError(w: World, s: Step) {
    s.DispatchError? && w.core.status == Some(Completed)
  }

  /** Of all steps of all parties, exactly a late dispatch error breaks the full promise. */
  lemma StepKeepsIff(w: World, s: Step)
    requires Sane(w) && ExactlyOnce(w) && Enabled(w, s)
    ensures ExactlyOnce(Next(w, s)) <==> !LateError(w, s)
  {
    StepKeeps(w, s);
  }

  ghost predicate Trace(worlds: seq<World>, steps: seq<Step>) {
    && |worlds| == |steps| + 1 && worlds[0] == START
    && forall k :: 0 <= k < |steps| ==> Enabled(worlds[k], steps[k]) && worlds[k + 1] == Next(worlds[k], steps[k])
  }

  lemma {:induction false} TraceKeeps(worlds: seq<World>, steps: seq<Step>, k: nat)
    requires Trace(worlds, steps) && k <= |steps|
    ensures Sane(worlds[k])
  {
    if k > 0 {
      TraceKeeps(worlds, steps, k - 1);
      StepKeeps(worlds[k - 1], steps[k - 1]);
    }
  }

  /**
   Over every interleaving of duplicate or late webhooks, lost keys, dying
   tasks, dispatch errors, deletions and restarts: the results are saved at
   most once, and whenever the run is completed it holds exactly what the
   engine computed. The full promise is kept all along exactly when no
   dispatch error comes late.
   */
  lemma ResultsExactlyOnce(worlds: seq<World>, steps: seq<Step>)
    requires Trace(worlds, steps)
    ensures forall k :: 0 <= k <= |steps| ==>
              && worlds[k].core.saves <= 1
              && (worlds[k].core.status == Some(Completed) ==> worlds[k].core.saves == 1 && worlds[k].output == Some(worlds[k].core.stored))
    ensures (forall k :: 0 <= k <= |steps| ==> ExactlyOnce(worlds[k])) <==> forall k :: 0 <= k < |steps| ==> !LateError(worlds[k], steps[k])
  {
    forall k | 0 <= k <= |steps|
      ensures Sane(worlds[k])
      ensures (forall j :: 0 <= j < k ==> !LateError(worlds[j], steps[j])) ==> ExactlyOnce(worlds[k])
    {
      TraceKeeps(worlds, steps, k);
      ExactWithoutLateError(worlds, steps, k);
    }
    if forall k :: 0 <= k <= |steps| ==> ExactlyOnce(worlds[k]) {
      forall k | 0 <= k < |steps|
        ensures !LateError(worlds[k], steps[k])
      {
        StepKeepsIff(worlds[k], steps[k]);
        assert ExactlyOnce(worlds[k + 1]);
      }
    }
  }

  lemma {:induction false} ExactWithoutLateError(worlds: seq<World>, steps: seq<Step>, k: nat)
    requires Trace(worlds, steps) && k <= |steps|
    ensures (forall j :: 0 <= j < k ==> !LateError(worlds[j], steps[j])) ==> ExactlyOnce(worlds[k])
  {
    if k > 0 && forall j :: 0 <= j < k ==> !LateError(worlds[j], steps[j]) {
      TraceKeeps(worlds, steps, k - 1);
      ExactWithoutLateError(worlds, steps, k - 1);
      StepKeepsIff(worlds[k - 1], steps[k - 1]);
    }
  }

  /**
   Once a run is completed, failed or deleted, no webhook, no restart and
   nothing else changes its status or results, except its deletion and a late
   dispatch error.
   */
  lemma {:induction false} TerminalStays(worlds: seq<World>, steps: seq<Step>, j: nat, k: nat)
    requires Trace(worlds, steps) && j <= k <= |steps|
    requires !IsOpen(worlds[j].core)
    requires forall i :: j <= i < k ==> !steps[i].DeleteRun? && !LateError(worlds[i], steps[i])
    ensures worlds[k].core == worlds[j].core
  {
    if j < k {
      TerminalStays(worlds, steps, j, k - 1);
      TraceKeeps(worlds, steps, k - 1);
      TerminalKept(worlds[k - 1], steps[k - 1]);
    }
  }

  lemma TerminalKept(w: World, s: Step)
    requires Sane(w) && Enabled(w, s) && !IsOpen(w.core) && !s.DeleteRun? && !LateError(w, s)
    ensures Next(w, s).core == w.core
  {
    if s.DispatchError? && w.core.status.Some? {
      var status := w.core.status.value;
      assert status.Queued? || status.Running? || status.Completed? || status.Failed?;
    }
  }

  lemma OneMoreStep(worlds: seq<World>, steps: seq<Step>, s: Step) returns (longer: seq<World>)
    requires Trace(worlds, steps) && Enabled(worlds[|steps|], s)
    ensures longer == worlds + [Next(worlds[|steps|], s)] && Trace(longer, steps + [s])
  {
    longer := worlds + [Next(worlds[|steps|], s)];
    forall k | 0 <= k < |steps + [s]|
      ensures Enabled(longer[k], (steps + [s])[k]) && longer[k + 1] == Next(longer[k], (steps + [s])[k])
    {
      if k < |steps| {
        assert longer[k] == worlds[k] && longer[k + 1] == worlds[k + 1];
      }
    }
  }

  lemma AcceptedWhileAwaiting() returns (worlds: seq<World>, steps: seq<Step>)
    ensures Trace(worlds, steps) && steps == [MarkRunning, PostRequest, Accept]
    ensures worlds[|steps|] == World(Core(Some(Running), [], 0), Awaiting, false, Some(KeyState(Queued, [])), Started, {}, None)
  {
    steps := [MarkRunning, PostRequest, Accept];
    var w1 := Next(START, MarkRunning);
    worlds := [START, w1, Next(w1, PostRequest), Next(Next(w1, PostRequest), Accept)];
  }

  lemma PersistedWhileAwaiting(rows: seq<Row>) returns (worlds: seq<World>, steps: seq<Step>)
    ensures Trace(worlds, steps) && steps == [MarkRunning, PostRequest, Accept, TaskRuns, Compute(rows), Persist]
    ensures worlds[|steps|] == World(Core(Some(Running), [], 0), Awaiting, false, Some(KeyState(Completed, rows)), Persisted, {}, Some(rows))
  {
    worlds, steps := AcceptedWhileAwaiting();
    worlds := OneMoreStep(worlds, steps, TaskRuns);
    steps := steps + [TaskRuns];
    worlds := OneMoreStep(worlds, steps, Compute(rows));
    steps := steps + [Compute(rows)];
    worlds := OneMoreStep(worlds, steps, Persist);
    steps := steps + [Persist];
  }

  /** The engine may finish, and its webhook be handled, before the service has seen the answer to its dispatch. */
  lemma CompletedWhileAwaiting(rows: seq<Row>) returns (worlds: seq<World>, steps: seq<Step>)
    ensures Trace(worlds, steps)
    ensures worlds[|steps|].core == Core(Some(Completed), rows, 1) && worlds[|steps|].dispatch.Awaiting?
  {
    worlds, steps := PersistedWhileAwaiting(rows);
    assert [] + rows == rows;
    worlds := OneMoreStep(worlds, steps, PostResults);
    steps := steps + [PostResults];
    worlds := OneMoreStep(worlds, steps, Webhook(CompletedPayload(rows)));
    steps := steps + [Webhook(CompletedPayload(rows))];
  }

  /**
   The proviso is needed: when the answer to the dispatch is lost after the
   engine has done its work, the error path marks a completed run as failed
   and leaves its results behind.
   */
  lemma LateErrorOverwrites(rows: seq<Row>) returns (worlds: seq<World>, steps: seq<Step>)
    ensures Trace(worlds, steps) && |steps| > 0
    ensures worlds[|steps| - 1].core == Core(Some(Completed), rows, 1) && worlds[|steps|].core == Core(Some(Failed), rows, 1)
  {
    var before;
    before, steps := CompletedWhileAwaiting(rows);
    worlds := OneMoreStep(before, steps, DispatchError);
    steps := steps + [DispatchError];
  }

  /** A job that breaks down reports it, and the run fails with nothing saved. */
  lemma FailureIsReported() returns (worlds: seq<World>, steps: seq<Step>)
    ensures Trace(worlds, steps) && steps == [MarkRunning, PostRequest, Accept, TaskRuns, TaskRaises, PostFailure, Webhook(FailedPayload)]
    ensures worlds[|steps|].core == Core(Some(Failed), [], 0)
  {
    worlds, steps := AcceptedWhileAwaiting();
    worlds := OneMoreStep(worlds, steps, TaskRuns);
    steps := steps + [TaskRuns];
    worlds := OneMoreStep(worlds, steps, TaskRaises);
    steps := steps + [TaskRaises];
    worlds := OneMoreStep(worlds, steps, PostFailure);
    steps := steps + [PostFailure];
    worlds := OneMoreStep(worlds, steps, Webhook(FailedPayload));
    steps := steps + [Webhook(FailedPayload)];
  }

  /** A job that dies after storing its results leaves them to be found: the next restart completes the run. */
  lemma RestartFindsResults(rows: seq<Row>) returns (worlds: seq<World>, steps: seq<Step>)
    ensures Trace(worlds, steps)
    ensures steps == [MarkRunning, PostRequest, Accept, TaskRuns, Compute(rows), Persist, TaskDies, Restart(Found(KeyState(Completed, rows)))]
    ensures worlds[|steps|].core == Core(Some(Completed), rows, 1)
  {
    worlds, steps := PersistedWhileAwaiting(rows);
    assert [] + rows == rows;
    worlds := OneMoreStep(worlds, steps, TaskDies);
    steps := steps + [TaskDies];
    worlds := OneMoreStep(worlds, steps, Restart(Found(KeyState(Completed, rows))));
    steps := steps + [Restart(Found(KeyState(Completed, rows)))];
  }

  // ---------- The handler in three steps ----------

  /**
   The run while handlers of results are at work: looked holds the results of
   those that saw the run open and have not saved yet, saved counts those that
   have saved and not marked the run completed yet.
   */
  datatype Handlers = Handlers(core: Core, looked: multiset<seq<Row>>, saved: nat)

  datatype HandlerStep = Look(rows: seq<Row>) | Save(rows: seq<Row>) | Mark

  predicate CanTake(h: Handlers, s: HandlerStep) {
    match s
    case Look(_) => true
    case Save(rows) => rows in h.looked
    case Mark => h.saved > 0
  }

  function Take(h: Handlers, s: HandlerStep): Handlers
    requires CanTake(h, s)
  {
    match s
    case Look(rows) => if IsOpen(h.core) then h.(looked := h.looked + multiset{rows}) else h
    case Save(rows) => Handlers(SaveRows(h.core, rows), h.looked - multiset{rows}, h.saved + 1)
    case Mark => h.(core := SetStatus(h.core, Completed), saved := h.saved - 1)
  }

  function AtWork(h: Handlers): nat {
    |h.looked| + h.saved
  }

  ghost predicate Handling(states: seq<Handlers>, steps: seq<HandlerStep>) {
    && |states| == |steps| + 1
    && IsOpen(states[0].core) && states[0].core.saves == 0 && AtWork(states[0]) == 0
    && forall k :: 0 <= k < |steps| ==> CanTake(states[k], steps[k]) && states[k + 1] == Take(states[k], steps[k])
  }

  /** While no two handlers overlap, the run is open until the one that saved has marked it. */
  ghost predicate OneByOne(h: Handlers) {
    && h.core.saves <= 1 && h.core.status.Some?
    && (IsOpen(h.core) ==> h.core.saves == h.saved)
    && (!IsOpen(h.core) ==> AtWork(h) == 0)
  }

  lemma {:induction false} WithoutOverlap(states: seq<Handlers>, steps: seq<HandlerStep>, k: nat)
    requires Handling(states, steps) && k <= |steps|
    requires forall j :: 0 <= j <= |steps| ==> AtWork(states[j]) <= 1
    ensures OneByOne(states[k])
  {
    if k > 0 {
      WithoutOverlap(states, steps, k - 1);
      assert AtWork(states[k - 1]) <= 1;
    }
  }

  /** Whoever has seen the run open will save: the saves to come are never fewer than the handlers at work. */
  lemma {:induction false} SavesToCome(states: seq<Handlers>, steps: seq<HandlerStep>, j: nat, k: nat)
    requires Handling(states, steps) && j <= k <= |steps|
    ensures states[j].saved <= states[j].core.saves
    ensures states[j].core.saves + |states[j].looked| <= states[k].core.saves + |states[k].looked|
  {
    if j < k {
      SavesToCome(states, steps, j, k - 1);
    } else if j > 0 {
      SavesToCome(states, steps, j - 1, j - 1);
    }
  }

  /** Once every handler is done, the results have been saved at most once exactly when no two handlers overlapped. */
  lemma SavedTwiceIffOverlap(states: seq<Handlers>, steps: seq<HandlerStep>)
    requires Handling(states, steps) && AtWork(states[|steps|]) == 0
    ensures states[|steps|].core.saves <= 1 <==> forall j :: 0 <= j <= |steps| ==> AtWork(states[j]) <= 1
  {
    if forall j :: 0 <= j <= |steps| ==> AtWork(states[j]) <= 1 {
      WithoutOverlap(states, steps, |steps|);
    }
    forall j | 0 <= j <= |steps|
      ensures AtWork(states[j]) <= states[|steps|].core.saves
    {
      SavesToCome(states, steps, j, |steps|);
    }
  }

  // ---------- The store and the service as objects ----------

  class RunStore {
    var keys: map<RunId, KeyState>

    constructor ()
      ensures keys == map[]
    {
      keys := map[];
    }

    ghost function Key(runId: RunId): Option<KeyState>
      reads this
    {
      if runId in keys then Some(keys[runId]) else None
    }

    method SetRunState(runId: RunId, state: KeyState)
      modifies this
      ensures keys == old(keys)[runId := state]
    {
      keys := keys[runId := state];
    }

    method GetRunState(runId: RunId) returns (state: Option<KeyState>)
      ensures state == Key(runId)
    {
      state := if runId in keys then Some(keys[runId]) else None;
    }

    /** Merges into the stored state; does nothing when there is none. */
    method UpdateRunState(runId: RunId, updates: Updates)
      modifies this
      ensures Key(runId) == MergeKey(old(Key(runId)), updates)
      ensures keys.Keys == old(keys).Keys
      ensures runId in keys ==>
                && keys[runId].status == updates.status
                && keys[runId].rows == if updates.rows.Some? then updates.rows.value else old(keys)[runId].rows
      ensures forall other :: other != runId ==> Key(other) == old(Key(other))
    {
      var current := GetRunState(runId);
      if current.None? {
        return;
      }
      var merged := current.value.(status := updates.status);
      if updates.rows.Some? {
        merged := merged.(rows := updates.rows.value);
      }
      SetRunState(runId, merged);
    }

    method DeleteRunState(runId: RunId)
      modifies this
      ensures keys == old(keys) - {runId}
    {
      keys := keys - {runId};
    }

    /** The engine's answer about a run. */
    method GetAllocationResult(runId: RunId) returns (reply: Reply)
      ensures reply == HonestReply(Key(runId))
      ensures reply == if runId in keys then Found(keys[runId]) else NoSuchRun
    {
      var run := GetRunState(runId);
      if run.None? {
        return NoSuchRun;
      }
      return Found(run.value);
    }
  }

  /** The runs and results tables of the core service. */
  class CoreRuns {
    var status: map<RunId, RunStatus>
    var results: seq<(RunId, Row)>
    ghost var saves: map<RunId, nat>

    ghost function View(runId: RunId): Core
      reads this
    {
      Core(if runId in status then Some(status[runId]) else None, RowsFor(results, runId), if runId in saves then saves[runId] else 0)
    }

    method UpdateRunStatus(runId: RunId, newStatus: RunStatus)
      modifies this`status
      ensures View(runId) == SetStatus(old(View(runId)), newStatus)
      ensures forall other :: other != runId ==> View(other) == old(View(other))
      ensures status == if runId in old(status) then old(status)[runId := newStatus] else old(status)
    {
      if runId in status {
        status := status[runId := newStatus];
      }
    }

    method SaveAllocationResults(runId: RunId, rows: seq<Row>)
      modifies this`results, this`saves
      ensures View(runId) == SaveRows(old(View(runId)), rows)
      ensures forall other :: other != runId ==> View(other) == old(View(other))
      ensures results == old(results) + seq(|rows|, k requires 0 <= k < |rows| => (runId, rows[k]))
    {
      ghost var before := results;
      var k := 0;
      while k < |rows|
        invariant 0 <= k <= |rows|
        invariant saves == old(saves)
        invariant results == before + seq(k, i requires 0 <= i < k => (runId, rows[i]))
        invariant RowsFor(results, runId) == RowsFor(before, runId) + rows[..k]
        invariant forall other :: other != runId ==> RowsFor(results, other) == RowsFor(before, other)
      {
        assert rows[..k + 1] == rows[..k] + [rows[k]];
        results := results + [(runId, rows[k])];
        k := k + 1;
      }
      assert rows[..k] == rows;
      saves := saves[runId := (if runId in saves then saves[runId] else 0) + 1];
    }

    method HandleWebhook(runId: RunId, payload: Payload) returns (found: bool)
      modifies this
      ensures found <==> runId in old(status)
      ensures View(runId) == Handle(old(View(runId)), payload)
      ensures var closed := runId !in old(status) || old(status)[runId] == Completed || old(status)[runId] == Failed;
              match payload
              case CompletedPayload(rows) =>
                if closed then status == old(status) && results == old(results)
                else
                  && status == old(status)[runId := Completed]
                  && results == old(results) + seq(|rows|, k requires 0 <= k < |rows| => (runId, rows[k]))
              case FailedPayload => results == old(results) && status == if closed then old(status) else old(status)[runId := Failed]
              case OtherPayload => results == old(results) && status == old(status)
      ensures forall other :: other != runId ==> View(other) == old(View(other))
    {
      if runId !in status {
        return false;
      }
      if status[runId] == Completed || status[runId] == Failed {
        return true;
      }
      match payload {
        case CompletedPayload(rows) =>
          SaveAllocationResults(runId, rows);
          UpdateRunStatus(runId, Completed);
        case FailedPayload =>
          UpdateRunStatus(runId, Failed);
        case OtherPayload =>
      }
      return true;
    }

    /** Start-up: every queued or running run is checked against the engine. */
    method OnModuleInit(replies: map<RunId, Reply>)
      requires status.Keys <= replies.Keys
      modifies this
      ensures forall runId :: runId in replies ==> View(runId) == Reconcile(old(View(runId)), replies[runId])
      ensures status.Keys == old(status).Keys
      ensures forall runId :: runId in status ==>
                var reply, before, rows := replies[runId], old(status)[runId], RowsFor(old(results), runId);
                if before != Queued && before != Running
                then status[runId] == before && RowsFor(results, runId) == rows
                else if reply.Found? && reply.state.status == Completed
                then status[runId] == Completed && RowsFor(results, runId) == rows + reply.state.rows
                else if reply.Found? && reply.state.status != Failed
                then status[runId] == before && RowsFor(results, runId) == rows
                else status[runId] == Failed && RowsFor(results, runId) == rows
    {
      var stale := set runId | runId in status && (status[runId] == Queued || status[runId] == Running);
      ghost var all := stale;
      while stale != {}
        invariant stale <= all && status.Keys == old(status).Keys
        invariant forall runId :: runId in stale ==> runId in status && View(runId) == old(View(runId))
        invariant forall runId :: runId !in all ==> View(runId) == old(View(runId))
        invariant forall runId :: runId in all - stale ==> runId in replies && View(runId) == Reconcile(old(View(runId)), replies[runId])
        decreases |stale|
      {
        var runId :| runId in stale;
        ReconcileRun(runId, replies[runId]);
        stale := stale - {runId};
      }
    }

    method ReconcileRun(runId: RunId, reply: Reply)
      requires runId in status && (status[runId] == Queued || status[runId] == Running)
      modifies this
      ensures View(runId) == Reconcile(old(View(runId)), reply)
      ensures forall other :: other != runId ==> View(other) == old(View(other))
      ensures status.Keys == old(status).Keys
    {
      match reply
      case Unreachable => UpdateRunStatus(runId, Failed);
      case HttpError => UpdateRunStatus(runId, Failed);
      case NoSuchRun => UpdateRunStatus(runId, Failed);
      case Found(state) =>
        if state.status == Completed {
          SaveAllocationResults(runId, state.rows);
          UpdateRunStatus(runId, Completed);
        } else if state.status == Failed {
          UpdateRunStatus(runId, Failed);
        }
    }
  }

  function RowsFor(results: seq<(RunId, Row)>, runId: RunId): seq<Row> {
    if results == [] then []
    else
      var n := |results| - 1;
      RowsFor(results[..n], runId) + (if results[n].0 == runId then [results[n].1] else [])
  }

  /** The rows of a run are those stored under its id, in order and with every copy. */
  lemma RowsForIs(results: seq<(RunId, Row)>, e: (RunId, Row), runId: RunId)
    ensures RowsFor([], runId) == []
    ensures RowsFor(results + [e], runId) == if e.0 == runId then RowsFor(results, runId) + [e.1] else RowsFor(results, runId)
  {
    assert (results + [e])[..|results|] == results;
  }

}
