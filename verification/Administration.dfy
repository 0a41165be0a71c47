/** Publishing, evicting, and undoing either from the action log, every row under the trigger. */
module Administration {
  import opened Common
  import opened RunNames
  import opened RoomTrigger

  datatype ResultId = ResultId(number: nat)

  datatype StudentRow = StudentRow(
    rollNumber: string,
    year: int,
    currentRoomId: Option<RoomId>,
    allocatedRoomId: Option<RoomId>,
    applicationStatus: string,
    hasSubmitted: bool)

  datatype ResultRow = ResultRow(runId: RunId, studentId: StudentId, roomId: Option<RoomId>, isLocked: bool)

  datatype RunRow = RunRow(status: RunStatus, finalized: bool, targetYears: seq<int>)

  datatype Entry = Entry(
    roomId: Option<RoomId>,
    applicationStatus: string,
    hasSubmitted: bool,
    allocationResult: Option<(ResultId, ResultRow)>)

  type Snapshot = map<StudentId, Entry>

  datatype ActionType = Eviction | PublishRun

  datatype Action = Action(actionType: ActionType, snapshot: Snapshot, runId: Option<RunId>, isReverted: bool)

  type Students = map<StudentId, StudentRow>
  type Results = map<ResultId, ResultRow>
  type Runs = map<RunId, RunRow>

  datatype AdminDb = AdminDb(students: Students, results: Results, runs: Runs, actions: seq<Action>)

  datatype AdminError =
    | RunNotFound | NotCompleted | AlreadyPublished | NoStudents | ActionNotFound | AlreadyReverted | TriggerFired

  function HousingOf(students: Students): Housing {
    map s | s in students :: students[s].currentRoomId
  }

  // ---------- Publishing ----------

  predicate InCohort(run: RunRow, row: StudentRow) {
    run.targetYears == [] || row.year in run.targetYears
  }

  function Entries(students: Students, run: RunRow): Snapshot {
    map s | s in students && InCohort(run, students[s]) ::
      Entry(students[s].currentRoomId, students[s].applicationStatus, students[s].hasSubmitted, None)
  }

  /** The successful results of a run, in the order the query returned the ids. */
  function Successful(results: Results, order: seq<ResultId>, runId: RunId): (ids: seq<ResultId>)
    ensures Known(ids, results)
    ensures forall id :: id in ids <==> id in order && id in results && results[id].runId == runId && results[id].roomId.Some?
  {
    var found := Filter(order, id => id in results && results[id].runId == runId && results[id].roomId.Some?);
    assert forall k :: 0 <= k < |found| ==> found[k] in found;
    found
  }

  predicate Known(ids: seq<ResultId>, results: Results) {
    forall k :: 0 <= k < |ids| ==> ids[k] in results
  }

  function LockResults(results: Results, ids: seq<ResultId>): Results {
    map id | id in results :: if id in ids then results[id].(isLocked := true) else results[id]
  }

  function UnlockRun(results: Results, runId: RunId): Results {
    map id | id in results :: if results[id].runId == runId then results[id].(isLocked := false) else results[id]
  }

  function Room(row: StudentRow, room: Option<RoomId>): StudentRow {
    row.(currentRoomId := room, allocatedRoomId := room)
  }

  /** The student rows after the first n assignments, or None when the trigger stops one. */
  function Assign(students: Students, capacities: Capacities, results: Results, ids: seq<ResultId>): Option<Students>
    requires Known(ids, results)
  {
    if ids == [] then Some(students)
    else
      var n := |ids| - 1;
      var before := Assign(students, capacities, results, ids[..n]);
      var r := results[ids[n]];
      if before.None? then None
      else if r.studentId !in before.value then before
      else if Allows(HousingOf(before.value), capacities, r.studentId, r.roomId)
      then Some(before.value[r.studentId := Room(before.value[r.studentId], r.roomId)])
      else None
  }

  function ResetCohort(students: Students, run: RunRow): Students {
    map s | s in students ::
      if InCohort(run, students[s]) then students[s].(hasSubmitted := false, applicationStatus := "NONE") else students[s]
  }

  function PublishError(db: AdminDb, runId: RunId): Option<AdminError> {
    if runId !in db.runs then Some(RunNotFound)
    else if !db.runs[runId].status.Completed? then Some(NotCompleted)
    else if db.runs[runId].finalized then Some(AlreadyPublished)
    else None
  }

  /** After a publish that committed. With nothing to assign, applications are not reset. */
  function AfterPublish(db: AdminDb, capacities: Capacities, order: seq<ResultId>, runId: RunId): AdminDb
    requires PublishError(db, runId).None?
    requires Assign(db.students, capacities, db.results, Successful(db.results, order, runId)).Some?
  {
    var run := db.runs[runId];
    var ids := Successful(db.results, order, runId);
    var moved := Assign(db.students, capacities, db.results, ids).value;
    AdminDb(
      if ids == [] then db.students else ResetCohort(moved, run),
      LockResults(db.results, ids),
      db.runs[runId := run.(finalized := true)],
      db.actions + [Action(PublishRun, Entries(db.students, run), Some(runId), false)])
  }

  lemma {:induction false} AssignKeeps(students: Students, capacities: Capacities, results: Results, ids: seq<ResultId>)
    requires Known(ids, results)
    requires Assign(students, capacities, results, ids).Some?
    ensures var after := Assign(students, capacities, results, ids).value;
            && after.Keys == students.Keys
            && forall s :: s in students ==>
                 && after[s].year == students[s].year && after[s].rollNumber == students[s].rollNumber
                 && after[s].applicationStatus == students[s].applicationStatus
                 && after[s].hasSubmitted == students[s].hasSubmitted
                 && ((forall k :: 0 <= k < |ids| ==> results[ids[k]].studentId != s) ==> after[s] == students[s])
  {
    if ids != [] {
      var n := |ids| - 1;
      AssignKeeps(students, capacities, results, ids[..n]);
      assert forall k :: 0 <= k < n ==> ids[..n][k] == ids[k];
    }
  }

  function UpdatesOf(results: Results, ids: seq<ResultId>): (updates: seq<Update>)
    requires Known(ids, results)
    ensures |updates| == |ids|
    ensures forall k :: 0 <= k < |ids| ==> updates[k] == Update(results[ids[k]].studentId, results[ids[k]].roomId)
  {
    seq(|ids|, k requires 0 <= k < |ids| => Update(results[ids[k]].studentId, results[ids[k]].roomId))
  }

  /** As far as rooms go, the assignment loop is a run of updates under the trigger. */
  lemma {:induction false} AssignIsRun(students: Students, capacities: Capacities, results: Results, ids: seq<ResultId>)
    requires Known(ids, results)
    ensures var after, run := Assign(students, capacities, results, ids), Run(HousingOf(students), capacities, UpdatesOf(results, ids));
            && (after.Some? <==> run.Some?)
            && (after.Some? ==> HousingOf(after.value) == run.value)
  {
    if ids != [] {
      var n := |ids| - 1;
      AssignIsRun(students, capacities, results, ids[..n]);
      assert UpdatesOf(results, ids)[..n] == UpdatesOf(results, ids[..n]);
    }
  }

  /** The loop leaves a student in the room of the last of the student's results. */
  lemma {:induction false} AssignedRoom(students: Students, capacities: Capacities, results: Results, ids: seq<ResultId>, s: StudentId, k: nat)
    requires Known(ids, results) && s in students && Assign(students, capacities, results, ids).Some?
    requires k < |ids| && results[ids[k]].studentId == s && forall m :: k < m < |ids| ==> results[ids[m]].studentId != s
    ensures var after := Assign(students, capacities, results, ids).value;
            s in after && after[s].currentRoomId == after[s].allocatedRoomId == results[ids[k]].roomId
  {
    var n := |ids| - 1;
    AssignKeeps(students, capacities, results, ids[..n]);
    if k < n {
      AssignedRoom(students, capacities, results, ids[..n], s, k);
    }
  }

  lemma LastResult(results: Results, ids: seq<ResultId>, s: StudentId, k: nat) returns (last: nat)
    requires Known(ids, results) && k < |ids| && results[ids[k]].studentId == s
    ensures last < |ids| && results[ids[last]].studentId == s && forall m :: last < m < |ids| ==> results[ids[m]].studentId != s
    decreases |ids| - k
  {
    if m :| k < m < |ids| && results[ids[m]].studentId == s {
      last := LastResult(results, ids, s, m);
    } else {
      last := k;
    }
  }

  /** A publish moves a student with results that hold a room into one of those rooms, and moves nobody else. */
  lemma PublishedRoom(db: AdminDb, capacities: Capacities, order: seq<ResultId>, runId: RunId, s: StudentId)
    requires PublishError(db, runId).None? && s in db.students
    requires Assign(db.students, capacities, db.results, Successful(db.results, order, runId)).Some?
    ensures var db' := AfterPublish(db, capacities, order, runId);
            && s in db'.students
            && if exists id :: id in order && id in db.results && db.results[id].runId == runId && db.results[id].studentId == s && db.results[id].roomId.Some?
               then exists id :: id in order && id in db.results && db.results[id].runId == runId && db.results[id].studentId == s && db.results[id].roomId.Some? && db'.students[s].currentRoomId == db'.students[s].allocatedRoomId == db.results[id].roomId
               else db'.students[s].currentRoomId == db.students[s].currentRoomId && db'.students[s].allocatedRoomId == db.students[s].allocatedRoomId
  {
    var ids := Successful(db.results, order, runId);
    AssignKeeps(db.students, capacities, db.results, ids);
    if k :| 0 <= k < |ids| && db.results[ids[k]].studentId == s {
      var last := LastResult(db.results, ids, s, k);
      AssignedRoom(db.students, capacities, db.results, ids, s, last);
      assert ids[last] in ids;
    } else {
      assert forall id :: id in ids ==> db.results[id].studentId != s;
    }
  }

  /** Once any room is given out, a publish resets the applications of the whole cohort, and of nobody else. */
  lemma PublishedApplication(db: AdminDb, capacities: Capacities, order: seq<ResultId>, runId: RunId, s: StudentId)
    requires PublishError(db, runId).None? && s in db.students
    requires Assign(db.students, capacities, db.results, Successful(db.results, order, runId)).Some?
    ensures var db', run := AfterPublish(db, capacities, order, runId), db.runs[runId];
            && db'.students.Keys == db.students.Keys
            && db'.students[s].rollNumber == db.students[s].rollNumber && db'.students[s].year == db.students[s].year
            && if (run.targetYears == [] || db.students[s].year in run.targetYears) && exists id :: id in order && id in db.results && db.results[id].runId == runId && db.results[id].roomId.Some?
               then !db'.students[s].hasSubmitted && db'.students[s].applicationStatus == "NONE"
               else db'.students[s].hasSubmitted == db.students[s].hasSubmitted && db'.students[s].applicationStatus == db.students[s].applicationStatus
  {
    var ids := Successful(db.results, order, runId);
    AssignKeeps(db.students, capacities, db.results, ids);
    if ids != [] {
      assert ids[0] in ids;
    }
  }

  // ---------- Undoing ----------

  function RestoredRow(row: StudentRow, e: Entry): StudentRow {
    Room(row, e.roomId).(applicationStatus := e.applicationStatus, hasSubmitted := e.hasSubmitted)
  }

  function RestoreStudents(students: Students, snapshot: Snapshot): Students {
    map s | s in students :: if s in snapshot then RestoredRow(students[s], snapshot[s]) else students[s]
  }

  function SavedResults(action: Action): set<(ResultId, ResultRow)> {
    if action.actionType.PublishRun? then {}
    else set s | s in action.snapshot && action.snapshot[s].allocationResult.Some? :: action.snapshot[s].allocationResult.value
  }

  /** The saved results are back under their ids; everything else is as it was. */
  ghost predicate ResultsRestored(before: Results, saved: set<(ResultId, ResultRow)>, after: Results) {
    && (forall id :: id in after ==> (id, after[id]) in saved || (id in before && after[id] == before[id]))
    && (forall e :: e in saved ==> e.0 in after && (e.0, after[e.0]) in saved)
    && (forall id :: id in before ==> id in after)
  }

  function RollbackError(db: AdminDb, action: nat): Option<AdminError> {
    if action >= |db.actions| then Some(ActionNotFound)
    else if db.actions[action].isReverted then Some(AlreadyReverted)
    else None
  }

  function ReopenRun(runs: Runs, action: Action): Runs {
    if action.actionType.PublishRun? && action.runId.Some? && action.runId.value in runs
    then runs[action.runId.value := runs[action.runId.value].(finalized := false)]
    else runs
  }

  function ReopenResults(runs: Runs, results: Results, action: Action): Results {
    if action.actionType.PublishRun? && action.runId.Some? && action.runId.value in runs
    then UnlockRun(results, action.runId.value)
    else results
  }

  /** What a committed rollback of the action leaves. */
  ghost predicate RolledBack(db: AdminDb, action: nat, db': AdminDb)
    requires action < |db.actions|
  {
    var a := db.actions[action];
    && db'.students == RestoreStudents(db.students, a.snapshot)
    && db'.runs == ReopenRun(db.runs, a)
    && (exists results :: ResultsRestored(db.results, SavedResults(a), results)
                          && db'.results == ReopenResults(db.runs, results, a))
    && db'.actions == db.actions[action := a.(isReverted := true)]
  }

  /** What the undo of an action is for: room, application status and submitted flag of a student. */
  ghost predicate SameStanding(a: StudentRow, b: StudentRow) {
    a.currentRoomId == b.currentRoomId && a.applicationStatus == b.applicationStatus && a.hasSubmitted == b.hasSubmitted
  }

  /**
   Publish, then roll back with nothing in between, both committing: every
   cohort student stands as before, the run is open again, and its results
   are all unlocked. The result table is as before exactly when none of the
   run's results was locked to begin with.
   */
  lemma PublishThenRollback(db: AdminDb, capacities: Capacities, order: seq<ResultId>, runId: RunId, db': AdminDb)
    requires PublishError(db, runId).None?
    requires Assign(db.students, capacities, db.results, Successful(db.results, order, runId)).Some?
    requires RolledBack(AfterPublish(db, capacities, order, runId), |db.actions|, db')
    ensures db'.students.Keys == db.students.Keys && db'.runs == db.runs
    ensures forall s :: s in db.students && InCohort(db.runs[runId], db.students[s]) ==>
              SameStanding(db'.students[s], db.students[s])
    ensures db'.results == UnlockRun(db.results, runId)
    ensures db'.results == db.results <==> forall id :: id in db.results && db.results[id].runId == runId ==> !db.results[id].isLocked
  {
    StandingAfterUndo(db, capacities, order, runId, db');
    ResultsAfterUndo(db, capacities, order, runId, db');
  }

  lemma StandingAfterUndo(db: AdminDb, capacities: Capacities, order: seq<ResultId>, runId: RunId, db': AdminDb)
    requires PublishError(db, runId).None?
    requires Assign(db.students, capacities, db.results, Successful(db.results, order, runId)).Some?
    requires RolledBack(AfterPublish(db, capacities, order, runId), |db.actions|, db')
    ensures db'.students.Keys == db.students.Keys && db'.runs == db.runs
    ensures forall s :: s in db.students && InCohort(db.runs[runId], db.students[s]) ==>
              SameStanding(db'.students[s], db.students[s])
  {
    var mid := AfterPublish(db, capacities, order, runId);
    assert mid.actions[|db.actions|] == Action(PublishRun, Entries(db.students, db.runs[runId]), Some(runId), false);
    AssignKeeps(db.students, capacities, db.results, Successful(db.results, order, runId));
    assert mid.runs[runId].(finalized := false) == db.runs[runId];
    assert db'.runs == db.runs;
  }

  lemma ResultsAfterUndo(db: AdminDb, capacities: Capacities, order: seq<ResultId>, runId: RunId, db': AdminDb)
    requires PublishError(db, runId).None?
    requires Assign(db.students, capacities, db.results, Successful(db.results, order, runId)).Some?
    requires RolledBack(AfterPublish(db, capacities, order, runId), |db.actions|, db')
    ensures db'.results == UnlockRun(db.results, runId)
    ensures db'.results == db.results <==> forall id :: id in db.results && db.results[id].runId == runId ==> !db.results[id].isLocked
  {
    var mid := AfterPublish(db, capacities, order, runId);
    assert mid.actions[|db.actions|] == Action(PublishRun, Entries(db.students, db.runs[runId]), Some(runId), false);
    PublishResultsRestored(db, Successful(db.results, order, runId), runId, mid.results, db'.results);
  }

  lemma PublishResultsRestored(db: AdminDb, ids: seq<ResultId>, runId: RunId, mid: Results, after: Results)
    requires forall id :: id in ids ==> id in db.results && db.results[id].runId == runId
    requires mid == LockResults(db.results, ids)
    requires exists results :: ResultsRestored(mid, {}, results) && after == UnlockRun(results, runId)
    ensures after == UnlockRun(db.results, runId)
    ensures after == db.results <==> forall id :: id in db.results && db.results[id].runId == runId ==> !db.results[id].isLocked
  {
  }

  // ---------- Evicting ----------

  function FoundStudents(students: Students, rollNumbers: seq<string>): set<StudentId> {
    set s | s in students && students[s].rollNumber in rollNumbers
  }

  /** Results of evicted students that hold a room. */
  function RoomedOf(results: Results, evicted: set<StudentId>): set<ResultId> {
    set id | id in results && results[id].studentId in evicted && results[id].roomId.Some?
  }

  function EvictRows(students: Students, evicted: set<StudentId>): Students {
    map s | s in students ::
      if s in evicted then Room(students[s], None).(hasSubmitted := false, applicationStatus := "EVICTED") else students[s]
  }

  /** Each evicted student's standing, with one of the student's roomed results if there is any. */
  ghost predicate EvictionSnapshot(students: Students, results: Results, evicted: set<StudentId>, snapshot: Snapshot) {
    && snapshot.Keys == evicted && evicted <= students.Keys
    && forall s :: s in evicted ==>
         && snapshot[s].roomId == students[s].currentRoomId
         && snapshot[s].applicationStatus == students[s].applicationStatus
         && snapshot[s].hasSubmitted == students[s].hasSubmitted
         && OneOf(results, s, snapshot[s].allocationResult)
  }

  ghost predicate OneOf(results: Results, s: StudentId, saved: Option<(ResultId, ResultRow)>) {
    && (saved.Some? ==> saved.value.0 in RoomedOf(results, {s}) && results[saved.value.0] == saved.value.1)
    && (saved.None? ==> RoomedOf(results, {s}) == {})
  }

  ghost predicate AfterEvict(db: AdminDb, rollNumbers: seq<string>, db': AdminDb) {
    var evicted := FoundStudents(db.students, rollNumbers);
    && db'.students == EvictRows(db.students, evicted)
    && db'.results == db.results - RoomedOf(db.results, evicted)
    && db'.runs == db.runs
    && |db'.actions| == |db.actions| + 1 && db'.actions[..|db.actions|] == db.actions
    && db'.actions[|db.actions|].actionType.Eviction? && !db'.actions[|db.actions|].isReverted
    && EvictionSnapshot(db.students, db.results, evicted, db'.actions[|db.actions|].snapshot)
  }

  /** Every room keeps its occupants but the evicted, and lacks nobody else. */
  lemma EvictionFreesBeds(db: AdminDb, rollNumbers: seq<string>, db': AdminDb, room: RoomId)
    requires AfterEvict(db, rollNumbers, db')
    ensures (set s | s in db'.students && db'.students[s].currentRoomId == Some(room)) ==
            (set s | s in db.students && db.students[s].currentRoomId == Some(room) && db.students[s].rollNumber !in rollNumbers)
  {
    assert db'.students.Keys == db.students.Keys;
  }

  ghost predicate AtMostOneRoomed(results: Results, evicted: set<StudentId>) {
    forall i, j ::
      i in RoomedOf(results, evicted) && j in RoomedOf(results, evicted) && results[i].studentId == results[j].studentId
      ==> i == j
  }

  /**
   Evict, then roll back with nothing in between: every evicted student stands
   as before, nobody else is touched, and the results are all back exactly
   when no evicted student had more than one result with a room.
   */
  lemma EvictThenRollback(db: AdminDb, rollNumbers: seq<string>, mid: AdminDb, db': AdminDb)
    requires AfterEvict(db, rollNumbers, mid) && RolledBack(mid, |db.actions|, db')
    ensures db'.students.Keys == db.students.Keys && db'.runs == db.runs
    ensures forall s :: s in db.students ==> SameStanding(db'.students[s], db.students[s])
    ensures db'.results == db.results <==> AtMostOneRoomed(db.results, FoundStudents(db.students, rollNumbers))
  {
    var evicted := FoundStudents(db.students, rollNumbers);
    var a := mid.actions[|db.actions|];
    var results :| ResultsRestored(mid.results, SavedResults(a), results) && db'.results == ReopenResults(mid.runs, results, a);
    assert db'.results == results;
    forall s | s in db.students
      ensures SameStanding(db'.students[s], db.students[s])
    {
      if s in evicted {
        assert s in a.snapshot;
      }
    }
    EvictedResultsBack(db.results, evicted, a, results);
  }

  /** Undoing an eviction at once is sure to commit if the rooms were within capacity. */
  lemma EvictionCanBeUndone(db: AdminDb, rollNumbers: seq<string>, mid: AdminDb, capacities: Capacities)
    requires AfterEvict(db, rollNumbers, mid) && WithinCapacity(HousingOf(db.students), capacities)
    ensures SureToRestore(mid.students, mid.actions[|db.actions|].snapshot, capacities)
  {
    var h, h' := HousingOf(db.students), HousingOf(mid.students);
    var snapshot := mid.actions[|db.actions|].snapshot;
    forall r | Returning(mid.students, snapshot, r) != {}
      ensures r in capacities && |Occupants(h', r)| + |Returning(mid.students, snapshot, r)| <= capacities[r]
    {
      var s :| s in Returning(mid.students, snapshot, r);
      assert h[s] == Some(r);
      assert Occupants(h', r) !! Returning(mid.students, snapshot, r);
      SubsetSize(Occupants(h', r) + Returning(mid.students, snapshot, r), Occupants(h, r));
    }
  }

  /** Undoing a publish at once is sure to commit if the cohort had no rooms before: it only takes rooms away. */
  lemma PublishCanBeUndone(db: AdminDb, capacities: Capacities, order: seq<ResultId>, runId: RunId)
    requires PublishError(db, runId).None?
    requires Assign(db.students, capacities, db.results, Successful(db.results, order, runId)).Some?
    requires forall s :: s in db.students && InCohort(db.runs[runId], db.students[s]) ==> db.students[s].currentRoomId.None?
    ensures var mid := AfterPublish(db, capacities, order, runId);
            SureToRestore(mid.students, mid.actions[|db.actions|].snapshot, capacities)
  {
    var mid := AfterPublish(db, capacities, order, runId);
    assert mid.actions[|db.actions|].snapshot == Entries(db.students, db.runs[runId]);
  }

  lemma EvictedResultsBack(before: Results, evicted: set<StudentId>, a: Action, after: Results)
    requires a.actionType.Eviction?
    requires a.snapshot.Keys == evicted
    requires forall s :: s in evicted ==> OneOf(before, s, a.snapshot[s].allocationResult)
    requires ResultsRestored(before - RoomedOf(before, evicted), SavedResults(a), after)
    ensures after == before <==> AtMostOneRoomed(before, evicted)
  {
    var saved := SavedResults(a);
    forall id | id in after
      ensures id in before && after[id] == before[id]
    {
    }
    if AtMostOneRoomed(before, evicted) {
      forall id | id in before
        ensures id in after
      {
        if id in RoomedOf(before, evicted) {
          SavedIsTheOne(before, evicted, a, id);
        }
      }
    }
    if after == before {
      forall i, j | i in RoomedOf(before, evicted) && j in RoomedOf(before, evicted) && before[i].studentId == before[j].studentId
        ensures i == j
      {
      }
    }
  }

  lemma SavedIsTheOne(before: Results, evicted: set<StudentId>, a: Action, id: ResultId)
    requires a.actionType.Eviction? && a.snapshot.Keys == evicted
    requires forall s :: s in evicted ==> OneOf(before, s, a.snapshot[s].allocationResult)
    requires AtMostOneRoomed(before, evicted) && id in RoomedOf(before, evicted)
    ensures (id, before[id]) in SavedResults(a)
  {
    var s := before[id].studentId;
    var saved := a.snapshot[s].allocationResult;
    assert OneOf(before, s, saved);
    assert id in RoomedOf(before, {s});
    assert saved.value.0 in RoomedOf(before, evicted);
  }

  // ---------- When a rollback is sure to commit ----------

  /** The snapshot's students who go back to the room from elsewhere. */
  function Returning(students: Students, snapshot: Snapshot, room: RoomId): set<StudentId> {
    set s | s in snapshot && s in students && snapshot[s].roomId == Some(room) && students[s].currentRoomId != Some(room)
  }

  /** Every room someone goes back to has beds for all who are in it and all who go back. */
  ghost predicate SureToRestore(students: Students, snapshot: Snapshot, capacities: Capacities) {
    forall r :: Returning(students, snapshot, r) != {} ==>
      r in capacities && |Occupants(HousingOf(students), r)| + |Returning(students, snapshot, r)| <= capacities[r]
  }

  /** The updates of a rollback, in some order. */
  ghost predicate RestoresRooms(students: Students, snapshot: Snapshot, updates: seq<Update>) {
    && OnceEach(HousingOf(students), updates)
    && forall u :: u in updates <==> u.id in snapshot && u.id in students && u.room == snapshot[u.id].roomId
  }

  /** A rollback commits whatever the order in which it visits the students exactly when it is sure to in this sense. */
  lemma SureToRestoreIff(students: Students, snapshot: Snapshot, capacities: Capacities, updates: seq<Update>)
    requires RestoresRooms(students, snapshot, updates)
    ensures AnyOrderPasses(HousingOf(students), capacities, updates) <==> SureToRestore(students, snapshot, capacities)
  {
    AnyOrderIff(HousingOf(students), capacities, updates);
    forall r
      ensures Arrivals(HousingOf(students), updates, r) == Returning(students, snapshot, r)
    {
      forall s | s in Returning(students, snapshot, r)
        ensures s in Arrivals(HousingOf(students), updates, r)
      {
        assert Update(s, snapshot[s].roomId) in updates;
      }
    }
  }

  // ---------- The service ----------

  class AdminService {
    var students: Students
    var results: Results
    var runs: Runs
    var actions: seq<Action>
    const capacity: Capacities

    constructor (rows: Students, capacities: Capacities)
      ensures View() == AdminDb(rows, map[], map[], []) && capacity == capacities
    {
      students, results, runs, actions, capacity := rows, map[], map[], [], capacities;
    }

    ghost function View(): AdminDb
      reads this
    {
      AdminDb(students, results, runs, actions)
    }

    /** UPDATE of one student row; false when the trigger raised. */
    method UpdateStudent(id: StudentId, row: StudentRow) returns (ok: bool)
      requires id in students
      modifies this`students
      ensures ok <==> Allows(HousingOf(old(students)), capacity, id, row.currentRoomId)
      ensures students == if ok then old(students)[id := row] else old(students)
    {
      ok := CheckRoomCapacity(HousingOf(students), capacity, id, row.currentRoomId);
      if ok {
        students := students[id := row];
      }
    }

    /**
     The whole publish transaction. `order` is the order in which the query
     returns the run's results.
     */
    method PublishAndCommit(runId: RunId, order: seq<ResultId>) returns (error: Option<AdminError>, count: nat)
      modifies this
      ensures error == Some(RunNotFound) <==> runId !in old(runs)
      ensures error == Some(NotCompleted) <==> runId in old(runs) && old(runs)[runId].status != Completed
      ensures error == Some(AlreadyPublished) <==> runId in old(runs) && old(runs)[runId].status == Completed && old(runs)[runId].finalized
      ensures error.Some? ==> View() == old(View())
      ensures PublishError(old(View()), runId).Some? <==> error.Some? && error != Some(TriggerFired)
      ensures PublishError(old(View()), runId).None? ==>
                var ids := Successful(old(results), order, runId);
                var passes := Assign(old(students), capacity, old(results), ids).Some?;
                && (passes ==> error.None? && count == |ids| && View() == AfterPublish(old(View()), capacity, order, runId))
                && (!passes ==> error == Some(TriggerFired))
      ensures error.None? ==>
                && results.Keys == old(results).Keys
                && forall id :: id in results ==>
                     && results[id].(isLocked := old(results)[id].isLocked) == old(results)[id]
                     && (results[id].isLocked <==> old(results)[id].isLocked || (id in order && old(results)[id].runId == runId && old(results)[id].roomId.Some?))
      ensures error.None? ==> runs == old(runs)[runId := old(runs)[runId].(finalized := true)]
      ensures error.None? ==>
                && |actions| == |old(actions)| + 1 && actions[..|old(actions)|] == old(actions)
                && var a, years := actions[|old(actions)|], old(runs)[runId].targetYears;
                   && a.actionType == PublishRun && a.runId == Some(runId) && !a.isReverted
                   && (forall s :: s in a.snapshot <==> s in old(students) && (years == [] || old(students)[s].year in years))
                   && forall s :: s in a.snapshot ==>
                        && a.snapshot[s].roomId == old(students)[s].currentRoomId
                        && a.snapshot[s].applicationStatus == old(students)[s].applicationStatus
                        && a.snapshot[s].hasSubmitted == old(students)[s].hasSubmitted
    {
      count := 0;
      if runId !in runs {
        return Some(RunNotFound), 0;
      }
      var run := runs[runId];
      if run.status != Completed {
        return Some(NotCompleted), 0;
      }
      if run.finalized {
        return Some(AlreadyPublished), 0;
      }
      var saved, savedResults, savedRuns := students, results, runs;
      var snapshot := Entries(students, run);
      var ids := Successful(results, order, runId);
      runs := runs[runId := run.(finalized := true)];
      if ids != [] {
        results := LockResults(results, ids);
        var ok := AssignRooms(savedResults, ids);
        if !ok {
          students, results, runs := saved, savedResults, savedRuns;
          return Some(TriggerFired), 0;
        }
        students := ResetCohort(students, run);
      } else {
        assert LockResults(results, ids) == results;
      }
      actions := actions + [Action(PublishRun, snapshot, Some(runId), false)];
      return None, |ids|;
    }

    /** The assignment loop of a publish; stops at the first row the trigger rejects. */
    method AssignRooms(rows: Results, ids: seq<ResultId>) returns (ok: bool)
      requires Known(ids, rows)
      modifies this`students
      ensures ok <==> Assign(old(students), capacity, rows, ids).Some?
      ensures ok ==> students == Assign(old(students), capacity, rows, ids).value
    {
      ghost var before := students;
      var k := 0;
      while k < |ids|
        invariant 0 <= k <= |ids|
        invariant Assign(before, capacity, rows, ids[..k]) == Some(students)
      {
        assert ids[..k + 1][..k] == ids[..k];
        var r := rows[ids[k]];
        if r.studentId in students {
          var passed := UpdateStudent(r.studentId, Room(students[r.studentId], r.roomId));
          if !passed {
            AssignStops(before, capacity, rows, ids, k + 1);
            return false;
          }
        }
        k := k + 1;
      }
      assert ids[..k] == ids;
      return true;
    }

    /** Evicts the students with the given roll numbers and logs their standing. */
    method BulkEvict(rollNumbers: seq<string>) returns (error: Option<AdminError>)
      modifies this
      ensures error.Some? <==> forall s :: s in old(students) ==> old(students)[s].rollNumber !in rollNumbers
      ensures error.Some? ==> error == Some(NoStudents) && View() == old(View())
      ensures error.None? ==> AfterEvict(old(View()), rollNumbers, View())
      ensures students.Keys == old(students).Keys && runs == old(runs)
      ensures forall s :: s in students ==>
                if old(students)[s].rollNumber in rollNumbers
                then
                  && students[s].currentRoomId.None? && students[s].allocatedRoomId.None?
                  && !students[s].hasSubmitted && students[s].applicationStatus == "EVICTED"
                  && students[s].rollNumber == old(students)[s].rollNumber && students[s].year == old(students)[s].year
                else students[s] == old(students)[s]
      ensures forall id :: id in results <==>
                && id in old(results)
                && (old(results)[id].studentId in old(students) && old(students)[old(results)[id].studentId].rollNumber in rollNumbers ==>
                      old(results)[id].roomId.None?)
      ensures forall id :: id in results ==> results[id] == old(results)[id]
    {
      var evicted := FoundStudents(students, rollNumbers);
      assert forall s :: s in students ==> (s in evicted <==> students[s].rollNumber in rollNumbers);
      if evicted == {} {
        return Some(NoStudents);
      }
      var roomed := RoomedOf(results, evicted);
      var snapshot := TakeEvictionSnapshot(evicted);
      results := results - roomed;
      students := EvictRows(students, evicted);
      actions := actions + [Action(Eviction, snapshot, None, false)];
      return None;
    }

    method TakeEvictionSnapshot(evicted: set<StudentId>) returns (snapshot: Snapshot)
      requires evicted <= students.Keys
      ensures EvictionSnapshot(students, results, evicted, snapshot)
    {
      snapshot := map[];
      var todo := evicted;
      while todo != {}
        invariant todo <= evicted
        invariant EvictionSnapshot(students, results, evicted - todo, snapshot)
        decreases todo
      {
        var s :| s in todo;
        var own := RoomedOf(results, {s});
        var saved: Option<(ResultId, ResultRow)> := None;
        if own != {} {
          var id :| id in own;
          saved := Some((id, results[id]));
        }
        assert OneOf(results, s, saved);
        snapshot := snapshot[s := Entry(students[s].currentRoomId, students[s].applicationStatus, students[s].hasSubmitted, saved)];
        todo := todo - {s};
      }
      assert evicted - todo == evicted;
    }

    /**
     The whole rollback transaction, whatever the order in which the snapshot's
     students are visited. It is sure to commit when every room someone goes
     back to has beds for all who are in it and all who go back.
     */
    method RollbackAction(action: nat) returns (error: Option<AdminError>)
      modifies this
      ensures error == Some(ActionNotFound) <==> action >= |old(actions)|
      ensures error == Some(AlreadyReverted) <==> action < |old(actions)| && old(actions)[action].isReverted
      ensures error.Some? ==> View() == old(View())
      ensures error.None? ==>
                && students.Keys == old(students).Keys
                && var snapshot := old(actions)[action].snapshot;
                   forall s :: s in students ==>
                     if s in snapshot
                     then students[s] == StudentRow(
                       old(students)[s].rollNumber, old(students)[s].year, snapshot[s].roomId, snapshot[s].roomId,
                       snapshot[s].applicationStatus, snapshot[s].hasSubmitted)
                     else students[s] == old(students)[s]
      ensures error.None? ==>
                && runs.Keys == old(runs).Keys
                && var a := old(actions)[action];
                   && actions == old(actions)[action := a.(isReverted := true)]
                   && forall r :: r in runs ==>
                        runs[r] == if a.actionType == PublishRun && a.runId == Some(r) then old(runs)[r].(finalized := false) else old(runs)[r]
      ensures error.None? && old(actions)[action].actionType == PublishRun ==>
                && results.Keys == old(results).Keys
                && forall id :: id in results ==>
                     results[id] == if old(actions)[action].runId == Some(old(results)[id].runId) && old(results)[id].runId in runs
                                    then old(results)[id].(isLocked := false) else old(results)[id]
      ensures error.None? && old(actions)[action].actionType == Eviction ==>
                var snapshot := old(actions)[action].snapshot;
                && (forall id :: id in old(results) ==> id in results)
                && (forall s :: s in snapshot && snapshot[s].allocationResult.Some? ==> snapshot[s].allocationResult.value.0 in results)
                && forall id :: id in results ==>
                     if exists s :: s in snapshot && snapshot[s].allocationResult.Some? && snapshot[s].allocationResult.value.0 == id
                     then exists s :: s in snapshot && snapshot[s].allocationResult == Some((id, results[id]))
                     else id in old(results) && results[id] == old(results)[id]
      ensures RollbackError(old(View()), action).Some? <==> error == Some(ActionNotFound) || error == Some(AlreadyReverted)
      ensures RollbackError(old(View()), action).None? ==>
                && (error.None? ==> RolledBack(old(View()), action, View()))
                && (error.Some? ==> error == Some(TriggerFired))
                && (SureToRestore(old(students), old(actions)[action].snapshot, capacity) ==> error.None?)
    {
      if action >= |actions| {
        return Some(ActionNotFound);
      }
      if actions[action].isReverted {
        return Some(AlreadyReverted);
      }
      var a := actions[action];
      var saved := students;
      var ok := RestoreRows(a.snapshot);
      if !ok {
        students := saved;
        return Some(TriggerFired);
      }
      var restored := RestoreSaved(results, SavedResults(a));
      results := ReopenResults(runs, restored, a);
      runs := ReopenRun(runs, a);
      actions := actions[action := a.(isReverted := true)];
      return None;
    }

    method RestoreRows(snapshot: Snapshot) returns (ok: bool)
      modifies this`students
      ensures ok ==> students == RestoreStudents(old(students), snapshot)
      ensures SureToRestore(old(students), snapshot, capacity) ==> ok
    {
      ghost var before := students;
      var todo := snapshot.Keys;
      while todo != {}
        invariant todo <= snapshot.Keys
        invariant PartlyRestored(before, snapshot, todo, students)
        decreases todo
      {
        var s :| s in todo;
        if s in students {
          if SureToRestore(before, snapshot, capacity) {
            RestoreOneAllowed(before, snapshot, todo, students, capacity, s);
          }
          var passed := UpdateStudent(s, RestoredRow(students[s], snapshot[s]));
          if !passed {
            return false;
          }
        }
        todo := todo - {s};
      }
      assert students == RestoreStudents(before, snapshot);
      return true;
    }
  }

  ghost predicate PartlyRestored(before: Students, snapshot: Snapshot, todo: set<StudentId>, now: Students) {
    && now.Keys == before.Keys
    && forall s :: s in before ==>
         now[s] == if s in snapshot && s !in todo then RestoredRow(before[s], snapshot[s]) else before[s]
  }

  lemma RestoreOneAllowed(before: Students, snapshot: Snapshot, todo: set<StudentId>, now: Students, capacities: Capacities, s: StudentId)
    requires SureToRestore(before, snapshot, capacities) && PartlyRestored(before, snapshot, todo, now)
    requires s in todo && todo <= snapshot.Keys && s in now
    ensures Allows(HousingOf(now), capacities, s, snapshot[s].roomId)
  {
    var room := snapshot[s].roomId;
    if room.Some? && now[s].currentRoomId != room {
      var r := room.value;
      var back, there, others := Returning(before, snapshot, r), Occupants(HousingOf(before), r), Occupants(HousingOf(now), r) - {s};
      assert s in back && back !! there;
      assert others + {s} <= there + back;
      SubsetSize(others + {s}, there + back);
    }
  }

  /** Saves rows under their ids; with two rows of one id the last one stays. */
  method RestoreSaved(results: Results, saved: set<(ResultId, ResultRow)>) returns (after: Results)
    ensures ResultsRestored(results, saved, after)
  {
    after := results;
    var todo := saved;
    while todo != {}
      invariant todo <= saved
      invariant ResultsRestored(results, saved - todo, after)
      decreases todo
    {
      var e :| e in todo;
      after := after[e.0 := e.1];
      todo := todo - {e};
    }
    assert saved - todo == saved;
  }

  lemma {:induction false} AssignStops(students: Students, capacities: Capacities, results: Results, ids: seq<ResultId>, k: nat)
    requires k <= |ids| && Known(ids, results)
    requires Assign(students, capacities, results, ids[..k]).None?
    ensures Assign(students, capacities, results, ids).None?
  {
    if k < |ids| {
      var n := |ids| - 1;
      assert ids[..n][..k] == ids[..k];
      AssignStops(students, capacities, results, ids[..n], k);
    } else {
      assert ids[..k] == ids;
    }
  }
}
