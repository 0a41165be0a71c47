/**
 Publishing what the engine computed: the students are written to the table
 one at a time, each write under the capacity trigger.
 */
module EngineToDatabase {
  import opened Common
  import opened RunNames
  import opened AllocationModel
  import opened InitialState
  import opened RunSteps
  import opened FcfsRun
  import SolverModel
  import SolverResults
  import RoomTrigger
  import Administration
  import RunMetrics
  import RunProtocol

  type Housing = RoomTrigger.Housing
  type Capacities = RoomTrigger.Capacities
  type Update = RoomTrigger.Update

  /** The database holds the run's rooms with their capacities. */
  ghost predicate SameRooms(inp: Inputs, capacities: Capacities) {
    forall k :: 0 <= k < |inp.rooms| ==>
      inp.rooms[k].id in capacities && capacities[inp.rooms[k].id] == inp.rooms[k].capacity
  }

  ghost predicate LockedIn(inp: Inputs, id: StudentId, room: RoomId) {
    exists i :: 0 <= i < |inp.locked| && inp.locked[i].0 == room && id in inp.locked[i].1 && id !in Cohort(inp)
  }

  /** Cohort students have rows and no room; whoever sits in a room of the run was locked there. */
  ghost predicate OnlyLockedHoused(inp: Inputs, h: Housing) {
    && (forall id :: id in Cohort(inp) ==> id in h && h[id].None?)
    && (forall id :: id in h && h[id].Some? && h[id].value in RoomIds(inp) ==> LockedIn(inp, id, h[id].value))
  }

  /** Whoever sits in a room of the run sits where the state puts them. */
  ghost predicate AsPlaced(inp: Inputs, s: State, h: Housing) {
    forall id :: id in h && h[id].Some? && h[id].value in RoomIds(inp) ==>
      id in s.placed && s.placed[id] == h[id].value
  }

  /** Moving one student to the room the state gives them passes the trigger and keeps the table in step with the state. */
  lemma MovePasses(inp: Inputs, s: State, h: Housing, capacities: Capacities, id: StudentId)
    requires Agree(s) && AllocationModel.WithinCapacity(inp, s) && SameRooms(inp, capacities) && AsPlaced(inp, s, h)
    requires id in h && id in s.placed && s.placed[id] in RoomIds(inp)
    ensures RoomTrigger.Allows(h, capacities, id, Some(s.placed[id]))
    ensures AsPlaced(inp, s, h[id := Some(s.placed[id])])
  {
    var room := s.placed[id];
    var r :| r in inp.rooms && r.id == room;
    var k :| 0 <= k < |inp.rooms| && inp.rooms[k] == r;
    var seated := set x | x in s.rooms[room];
    var others := RoomTrigger.Occupants(h, room) - {id};
    MembersCount(s.rooms[room]);
    assert others + {id} <= seated;
    SubsetSize(others + {id}, seated);
    RoomTrigger.SizeWithout(others, id);
    assert others - {id} == others;
    assert Occ(s, inp.rooms[k].id) <= inp.rooms[k].capacity;
  }

  /** Each update moves a student with a row to the room the state gives them. */
  ghost predicate Moves(inp: Inputs, s: State, h: Housing, updates: seq<Update>) {
    forall k :: 0 <= k < |updates| ==>
      && updates[k].id in h && updates[k].id in s.placed && s.placed[updates[k].id] in RoomIds(inp)
      && updates[k].room == Some(s.placed[updates[k].id])
  }

  /** h' is h with every updated student in the room of the update. */
  ghost predicate Housed(h: Housing, updates: seq<Update>, h': Housing) {
    && h'.Keys == h.Keys
    && (forall k :: 0 <= k < |updates| && updates[k].id in h ==> h'[updates[k].id] == updates[k].room)
    && (forall id :: id in h && (forall k :: 0 <= k < |updates| ==> updates[k].id != id) ==> h'[id] == h[id])
  }

  lemma {:induction false} MovesPass(inp: Inputs, s: State, h: Housing, capacities: Capacities, updates: seq<Update>)
    requires Agree(s) && AllocationModel.WithinCapacity(inp, s) && SameRooms(inp, capacities) && AsPlaced(inp, s, h)
    requires Moves(inp, s, h, updates)
    ensures var after := RoomTrigger.Run(h, capacities, updates);
            after.Some? && Housed(h, updates, after.value) && AsPlaced(inp, s, after.value)
  {
    if updates != [] {
      var n := |updates| - 1;
      MovesPass(inp, s, h, capacities, updates[..n]);
      var before := RoomTrigger.Run(h, capacities, updates[..n]).value;
      MovePasses(inp, s, before, capacities, updates[n].id);
      HousedOneMore(inp, s, h, updates, before);
    }
  }

  lemma HousedOneMore(inp: Inputs, s: State, h: Housing, updates: seq<Update>, before: Housing)
    requires |updates| > 0 && Moves(inp, s, h, updates) && Housed(h, updates[..|updates| - 1], before)
    ensures Housed(h, updates, before[updates[|updates| - 1].id := updates[|updates| - 1].room])
  {
  }

  // ---------- The results of a run ----------

  /** The updates write successful results, in any order and any selection. */
  ghost predicate FromResults(updates: seq<Update>, rs: seq<Result>) {
    forall k :: 0 <= k < |updates| ==> IsSuccess(updates[k], rs)
  }

  ghost predicate IsSuccess(u: Update, rs: seq<Result>) {
    exists i :: 0 <= i < |rs| && rs[i].roomId.Some? && rs[i].studentId == u.id && rs[i].roomId == u.room
  }

  /** What publishing needs from a run, whatever its mode: a sound state, successes that state it, and one for each student placed. */
  ghost predicate Publishable(inp: Inputs, s: State, rs: seq<Result>) {
    && Sound(inp, s)
    && (forall i :: 0 <= i < |rs| && rs[i].roomId.Some? ==>
          rs[i].studentId in Cohort(inp) && rs[i].studentId in s.placed && s.placed[rs[i].studentId] == rs[i].roomId.value)
    && (forall id :: id in Cohort(inp) && id in s.placed ==> HasSuccess(rs, id))
  }

  ghost predicate HasSuccess(rs: seq<Result>, id: StudentId) {
    exists i :: 0 <= i < |rs| && rs[i].studentId == id && rs[i].roomId.Some?
  }

  lemma FaithfulPublishable(inp: Inputs, s: State, rs: seq<Result>)
    requires Sound(inp, s) && RunMetrics.Faithful(inp, s, rs)
    ensures Publishable(inp, s, rs)
  {
    forall id | id in Cohort(inp) && id in s.placed
      ensures HasSuccess(rs, id)
    {
      LatestFinds(rs, id);
      var i :| 0 <= i < |rs| && rs[i] == Latest(rs, id).value;
    }
  }

  lemma GroupRunPublishable(inp: Inputs, s: State, rs: seq<Result>)
    requires RunSettles(inp, s, rs)
    ensures Publishable(inp, s, rs)
  {
    RunMetrics.CompleteFaithful(inp, s, rs);
    FaithfulPublishable(inp, s, rs);
  }

  lemma FcfsRunPublishable(inp: Inputs, s: State, rs: seq<Result>)
    requires FcfsEnds(inp, s, rs)
    ensures Publishable(inp, s, rs)
  {
    RunMetrics.FcfsFaithful(inp, s, rs);
    FaithfulPublishable(inp, s, rs);
  }

  lemma SolverRunPublishable(inp: Inputs, x: SolverModel.Choice, rs: seq<Result>)
    requires WellFormed(inp) && SolverModel.Feasible(inp, x)
    requires |rs| == |inp.students| && forall i :: 0 <= i < |rs| ==> rs[i] == SolverResults.ResultFor(inp, x, inp.students[i])
    ensures Publishable(inp, SolverResults.SeatFirst(inp, SolverModel.Decode(x), |inp.students|), rs)
  {
    var a := SolverModel.Decode(x);
    SolverModel.SolutionsAreAllocations(inp, x);
    SolverResults.AllocationIsSafe(inp, a);
    forall i | 0 <= i < |rs|
      ensures rs[i].studentId == inp.students[i].userId && rs[i].studentId in Cohort(inp)
      ensures rs[i].roomId == if rs[i].studentId in a then Some(a[rs[i].studentId]) else None
    {
      assert inp.students[i] in inp.students;
      SolverResults.ReadingIsDecoding(inp, x, inp.students[i]);
    }
    ReadAsPlaced(inp, SolverResults.SeatFirst(inp, a, |inp.students|), a, rs);
  }

  lemma ReadAsPlaced(inp: Inputs, s: State, a: map<StudentId, RoomId>, rs: seq<Result>)
    requires Sound(inp, s)
    requires forall id :: id in Cohort(inp) ==> (id in s.placed <==> id in a) && (id in a ==> s.placed[id] == a[id])
    requires |rs| == |inp.students|
    requires forall i :: 0 <= i < |rs| ==>
               && rs[i].studentId == inp.students[i].userId && rs[i].studentId in Cohort(inp)
               && rs[i].roomId == if rs[i].studentId in a then Some(a[rs[i].studentId]) else None
    ensures Publishable(inp, s, rs)
  {
    forall id | id in Cohort(inp) && id in s.placed
      ensures HasSuccess(rs, id)
    {
      var m :| m in inp.students && m.userId == id;
      var i :| 0 <= i < |inp.students| && inp.students[i] == m;
      assert rs[i].studentId == id && rs[i].roomId.Some?;
    }
  }

  /**
   From a table where the cohort is unhoused and the run's rooms hold locked
   students only, publishing any of the run's successes, one row at a time and
   in any order, never fires the trigger, and puts every published student in
   the room of the result.
   */
  lemma PublishingNeverStops(inp: Inputs, s: State, rs: seq<Result>, h: Housing, capacities: Capacities, updates: seq<Update>)
    requires Publishable(inp, s, rs) && OnlyLockedHoused(inp, h) && SameRooms(inp, capacities)
    requires FromResults(updates, rs)
    ensures var after := RoomTrigger.Run(h, capacities, updates);
            after.Some? && Housed(h, updates, after.value)
  {
    forall k | 0 <= k < |updates|
      ensures updates[k].id in h && updates[k].id in s.placed && s.placed[updates[k].id] in RoomIds(inp)
      ensures updates[k].room == Some(s.placed[updates[k].id])
    {
      assert IsSuccess(updates[k], rs);
    }
    MovesPass(inp, s, h, capacities, updates);
  }

  /** The result rows of the run are the given student and room pairs, none missing and none added. */
  ghost predicate StoredAs(results: Administration.Results, runId: RunId, rows: seq<RunProtocol.Row>) {
    && (forall id :: id in results && results[id].runId == runId ==> (results[id].studentId, results[id].roomId) in rows)
    && (forall row :: row in rows ==> HasRow(results, runId, row))
  }

  ghost predicate HasRow(results: Administration.Results, runId: RunId, row: RunProtocol.Row) {
    exists id :: id in results && results[id].runId == runId && (results[id].studentId, results[id].roomId) == row
  }

  /** The query returns every result of the run, in whatever order. */
  ghost predicate ReturnsAll(results: Administration.Results, runId: RunId, order: seq<Administration.ResultId>) {
    forall id :: id in results && results[id].runId == runId ==> id in order
  }

  /** What the engine posts: student and room of every result. */
  function Posted(rs: seq<Result>): (rows: seq<RunProtocol.Row>)
    ensures |rows| == |rs|
    ensures forall i :: 0 <= i < |rs| ==> rows[i] == (rs[i].studentId, rs[i].roomId)
  {
    seq(|rs|, i requires 0 <= i < |rs| => (rs[i].studentId, rs[i].roomId))
  }

  /** Each update of a publish writes a success of the run. */
  lemma UpdatesAreSuccesses(rs: seq<Result>, results: Administration.Results, order: seq<Administration.ResultId>, runId: RunId)
    requires StoredAs(results, runId, Posted(rs))
    ensures FromResults(Administration.UpdatesOf(results, Administration.Successful(results, order, runId)), rs)
  {
    var ids := Administration.Successful(results, order, runId);
    var updates := Administration.UpdatesOf(results, ids);
    forall k | 0 <= k < |updates|
      ensures IsSuccess(updates[k], rs)
    {
      assert ids[k] in ids;
      var i :| 0 <= i < |rs| && Posted(rs)[i] == (results[ids[k]].studentId, results[ids[k]].roomId);
    }
  }

  /** Every student placed is written by some update. */
  lemma PlacedIsWritten(inp: Inputs, s: State, rs: seq<Result>, results: Administration.Results, order: seq<Administration.ResultId>, runId: RunId,
                        id: StudentId)
    returns (k: nat)
    requires Publishable(inp, s, rs) && id in Cohort(inp) && id in s.placed
    requires StoredAs(results, runId, Posted(rs)) && ReturnsAll(results, runId, order)
    ensures var ids := Administration.Successful(results, order, runId);
            k < |ids| && Administration.UpdatesOf(results, ids)[k] == RoomTrigger.Update(id, Some(s.placed[id]))
  {
    var i :| 0 <= i < |rs| && rs[i].studentId == id && rs[i].roomId.Some?;
    assert Posted(rs)[i] in Posted(rs);
    var row: Administration.ResultId :|
      row in results && results[row].runId == runId && (results[row].studentId, results[row].roomId) == Posted(rs)[i];
    var ids := Administration.Successful(results, order, runId);
    assert row in ids;
    k :| 0 <= k < |ids| && ids[k] == row;
  }

  /** Every cohort student is where the state says, housed or not; everybody else is where they were. */
  ghost predicate AllAsPlaced(inp: Inputs, s: State, before: Housing, after: Housing) {
    && after.Keys == before.Keys
    && (forall id :: id in Cohort(inp) ==> id in after && after[id] == SeatOf(s, id))
    && (forall id :: id in before && id !in Cohort(inp) ==> after[id] == before[id])
  }

  /**
   Publishing a whole run of any mode, in any order of its results: the
   transaction is sure to commit, every student of the cohort ends in the room
   the engine chose, or in none if it chose none, and nobody else is moved.
   */
  lemma PublishCommits(inp: Inputs, s: State, rs: seq<Result>, db: Administration.AdminDb, capacities: Capacities,
                       order: seq<Administration.ResultId>, runId: RunId)
    requires Publishable(inp, s, rs) && SameRooms(inp, capacities)
    requires OnlyLockedHoused(inp, Administration.HousingOf(db.students))
    requires StoredAs(db.results, runId, Posted(rs)) && ReturnsAll(db.results, runId, order)
    ensures var after := Administration.Assign(db.students, capacities, db.results, Administration.Successful(db.results, order, runId));
            && after.Some?
            && AllAsPlaced(inp, s, Administration.HousingOf(db.students), Administration.HousingOf(after.value))
  {
    var ids := Administration.Successful(db.results, order, runId);
    var updates, h := Administration.UpdatesOf(db.results, ids), Administration.HousingOf(db.students);
    UpdatesAreSuccesses(rs, db.results, order, runId);
    PublishingNeverStops(inp, s, rs, h, capacities, updates);
    Administration.AssignIsRun(db.students, capacities, db.results, ids);
    var after := RoomTrigger.Run(h, capacities, updates).value;
    forall id | id in h
      ensures id in Cohort(inp) ==> after[id] == SeatOf(s, id)
      ensures id !in Cohort(inp) ==> after[id] == h[id]
    {
      HousedAsPlaced(inp, s, rs, h, updates, after, id);
      if id in Cohort(inp) && id in s.placed {
        var k := PlacedIsWritten(inp, s, rs, db.results, order, runId, id);
        assert after[updates[k].id] == updates[k].room;
      }
    }
  }

  /** Whoever is not a placed student of the cohort is not written. */
  lemma HousedAsPlaced(inp: Inputs, s: State, rs: seq<Result>, h: Housing, updates: seq<Update>, after: Housing, id: StudentId)
    requires Publishable(inp, s, rs) && FromResults(updates, rs) && Housed(h, updates, after) && id in h
    ensures !(id in Cohort(inp) && id in s.placed) ==> after[id] == h[id]
  {
    forall k | 0 <= k < |updates|
      ensures updates[k].id in Cohort(inp) && updates[k].id in s.placed
    {
      assert IsSuccess(updates[k], rs);
    }
  }

  // ---------- From the engine to the students table ----------

  /**
   The whole way: whatever webhooks, restarts, errors and losses there were,
   if the service has the run as completed and publishes it, the publish is
   sure to commit and leaves every student of the cohort in the room the
   engine chose, or in none if it chose none, and everybody else in place.
   */
  lemma CompletedRunPublishes(worlds: seq<RunProtocol.World>, steps: seq<RunProtocol.Step>, k: nat, inp: Inputs, s: State, rs: seq<Result>,
                              db: Administration.AdminDb, capacities: Capacities, order: seq<Administration.ResultId>, runId: RunId)
    requires RunProtocol.Trace(worlds, steps) && k <= |steps|
    requires worlds[k].core.status == Some(RunStatus.Completed) && worlds[k].output == Some(Posted(rs))
    requires StoredAs(db.results, runId, worlds[k].core.stored) && ReturnsAll(db.results, runId, order)
    requires Publishable(inp, s, rs) && SameRooms(inp, capacities) && OnlyLockedHoused(inp, Administration.HousingOf(db.students))
    requires Administration.PublishError(db, runId).None?
    ensures Administration.Assign(db.students, capacities, db.results, Administration.Successful(db.results, order, runId)).Some?
    ensures AllAsPlaced(inp, s, Administration.HousingOf(db.students),
                        Administration.HousingOf(Administration.AfterPublish(db, capacities, order, runId).students))
  {
    RunProtocol.ResultsExactlyOnce(worlds, steps);
    PublishCommits(inp, s, rs, db, capacities, order, runId);
    PublishedHousing(db, capacities, order, runId);
  }

  /** Resetting the applications moves nobody. */
  lemma PublishedHousing(db: Administration.AdminDb, capacities: Capacities, order: seq<Administration.ResultId>, runId: RunId)
    requires Administration.PublishError(db, runId).None?
    requires Administration.Assign(db.students, capacities, db.results, Administration.Successful(db.results, order, runId)).Some?
    ensures Administration.HousingOf(Administration.AfterPublish(db, capacities, order, runId).students)
            == Administration.HousingOf(Administration.Assign(db.students, capacities, db.results,
                                                              Administration.Successful(db.results, order, runId)).value)
  {
  }

  // ---------- A cohort that is housed already ----------

  /**
   Publishing over any table at all, a cohort with rooms included. The
   transaction commits exactly when each result in its turn finds a bed, as
   counted on the table before; and it commits in every order of the results
   exactly when each room anyone enters has beds for all who are in it and
   all who are to come.
   */
  lemma PublishCommitsIff(students: Administration.Students, capacities: Capacities, results: Administration.Results,
                          ids: seq<Administration.ResultId>)
    requires Administration.Known(ids, results)
    requires RoomTrigger.OnceEach(Administration.HousingOf(students), Administration.UpdatesOf(results, ids))
    ensures var h, updates := Administration.HousingOf(students), Administration.UpdatesOf(results, ids);
            && (Administration.Assign(students, capacities, results, ids).Some?
                <==> forall k :: 0 <= k < |updates| ==> RoomTrigger.BedFor(h, capacities, updates, k))
            && (InEveryOrder(students, capacities, results, ids) <==> RoomTrigger.BedsForAll(h, capacities, updates))
  {
    var h, updates := Administration.HousingOf(students), Administration.UpdatesOf(results, ids);
    Administration.AssignIsRun(students, capacities, results, ids);
    RoomTrigger.RunIff(h, capacities, updates);
    RoomTrigger.AnyOrderIff(h, capacities, updates);
    OrdersOfUpdates(students, capacities, results, ids);
  }

  ghost predicate InEveryOrder(students: Administration.Students, capacities: Capacities, results: Administration.Results,
                               ids: seq<Administration.ResultId>)
    requires Administration.Known(ids, results)
  {
    forall order :: multiset(order) == multiset(ids) && Administration.Known(order, results) ==>
      Administration.Assign(students, capacities, results, order).Some?
  }

  lemma OrdersOfUpdates(students: Administration.Students, capacities: Capacities, results: Administration.Results,
                        ids: seq<Administration.ResultId>)
    requires Administration.Known(ids, results)
    ensures InEveryOrder(students, capacities, results, ids)
            <==> RoomTrigger.AnyOrderPasses(Administration.HousingOf(students), capacities, Administration.UpdatesOf(results, ids))
  {
    var h, updates := Administration.HousingOf(students), Administration.UpdatesOf(results, ids);
    if RoomTrigger.AnyOrderPasses(h, capacities, updates) {
      forall order | multiset(order) == multiset(ids) && Administration.Known(order, results)
        ensures Administration.Assign(students, capacities, results, order).Some?
      {
        Administration.AssignIsRun(students, capacities, results, order);
        UpdatesPermuted(results, order, ids);
      }
    }
    if InEveryOrder(students, capacities, results, ids) {
      forall turned | multiset(turned) == multiset(updates)
        ensures RoomTrigger.Run(h, capacities, turned).Some?
      {
        var order := OrderOf(results, ids, turned);
        SameElements(order, ids);
        Administration.AssignIsRun(students, capacities, results, order);
      }
    }
  }

  lemma UpdatesWithout(results: Administration.Results, ids: seq<Administration.ResultId>, k: nat)
    requires Administration.Known(ids, results) && k < |ids|
    ensures var rest, updates := ids[..k] + ids[k + 1..], Administration.UpdatesOf(results, ids);
            && Administration.Known(rest, results)
            && Administration.UpdatesOf(results, rest) == updates[..k] + updates[k + 1..]
            && multiset(ids) == multiset(rest) + multiset{ids[k]}
  {
    WithoutOne(ids, k);
  }

  lemma UpdatesWith(results: Administration.Results, order: seq<Administration.ResultId>, id: Administration.ResultId)
    requires Administration.Known(order, results) && id in results
    ensures Administration.Known(order + [id], results)
    ensures Administration.UpdatesOf(results, order + [id])
            == Administration.UpdatesOf(results, order) + [RoomTrigger.Update(results[id].studentId, results[id].roomId)]
  {
  }

  lemma {:induction false} UpdatesPermuted(results: Administration.Results, a: seq<Administration.ResultId>, b: seq<Administration.ResultId>)
    requires Administration.Known(a, results) && Administration.Known(b, results) && multiset(a) == multiset(b)
    ensures multiset(Administration.UpdatesOf(results, a)) == multiset(Administration.UpdatesOf(results, b))
  {
    SameElements(a, b);
    if a != [] {
      var n := |a| - 1;
      assert a[n] in b;
      var k :| 0 <= k < |b| && b[k] == a[n];
      RemoveOne(a, n, b, k);
      assert a[..n] + a[n + 1..] == a[..n] && a == a[..n] + [a[n]];
      UpdatesWithout(results, b, k);
      WithoutOne(Administration.UpdatesOf(results, b), k);
      UpdatesPermuted(results, a[..n], b[..k] + b[k + 1..]);
      UpdatesWith(results, a[..n], a[n]);
    }
  }

  /** Results in an order whose updates come in the given order. */
  lemma {:induction false} OrderOf(results: Administration.Results, ids: seq<Administration.ResultId>, turned: seq<Update>)
    returns (order: seq<Administration.ResultId>)
    requires Administration.Known(ids, results) && multiset(turned) == multiset(Administration.UpdatesOf(results, ids))
    ensures multiset(order) == multiset(ids) && Administration.Known(order, results)
    ensures Administration.UpdatesOf(results, order) == turned
    decreases |turned|
  {
    SameElements(turned, Administration.UpdatesOf(results, ids));
    order := ids;
    if turned != [] {
      var id, rest := LastInOrder(results, ids, turned);
      var before := OrderOf(results, rest, turned[..|turned| - 1]);
      UpdatesWith(results, before, id);
      order := before + [id];
    }
  }

  /** The result whose update comes last, and the others. */
  lemma LastInOrder(results: Administration.Results, ids: seq<Administration.ResultId>, turned: seq<Update>)
    returns (id: Administration.ResultId, rest: seq<Administration.ResultId>)
    requires Administration.Known(ids, results) && multiset(turned) == multiset(Administration.UpdatesOf(results, ids)) && |turned| > 0
    ensures Administration.Known(rest, results) && multiset(turned[..|turned| - 1]) == multiset(Administration.UpdatesOf(results, rest))
    ensures id in results && turned[|turned| - 1] == RoomTrigger.Update(results[id].studentId, results[id].roomId)
    ensures multiset(ids) == multiset(rest) + multiset{id}
  {
    var n, updates := |turned| - 1, Administration.UpdatesOf(results, ids);
    SameElements(turned, updates);
    var k := PlaceOf(turned, updates);
    RemoveOne(turned, n, updates, k);
    assert turned[..n] + turned[n + 1..] == turned[..n];
    UpdatesWithout(results, ids, k);
    id, rest := ids[k], ids[..k] + ids[k + 1..];
  }

  lemma PlaceOf(turned: seq<Update>, updates: seq<Update>) returns (k: nat)
    requires |turned| > 0 && forall u :: u in turned ==> u in updates
    ensures k < |updates| && updates[k] == turned[|turned| - 1]
  {
    assert turned[|turned| - 1] in updates;
    k :| 0 <= k < |updates| && updates[k] == turned[|turned| - 1];
  }

  /**
   Over a housed cohort a publish can fail although what it writes is within
   every capacity: two students who are to trade their full single rooms.
   */
  lemma HousedCohortCanStop(a: StudentId, b: StudentId, r: RoomId, q: RoomId)
    requires a != b && r != q
    ensures var h: Housing, target: Housing := map[a := Some(r), b := Some(q)], map[a := Some(q), b := Some(r)];
            var capacities: Capacities := map[r := 1, q := 1];
            var updates := [RoomTrigger.Update(a, Some(q)), RoomTrigger.Update(b, Some(r))];
            && RoomTrigger.WithinCapacity(h, capacities) && RoomTrigger.WithinCapacity(target, capacities)
            && RoomTrigger.IsAfter(h, updates, target)
            && RoomTrigger.Run(h, capacities, updates).None?
  {
    var h: Housing := map[a := Some(r), b := Some(q)];
    var capacities: Capacities := map[r := 1, q := 1];
    var updates := [RoomTrigger.Update(a, Some(q)), RoomTrigger.Update(b, Some(r))];
    OneEachWithin(a, b, r, q);
    OneEachWithin(a, b, q, r);
    assert map[q := 1, r := 1] == capacities;
    FullRoomStops(h, capacities, updates, q, b);
  }

  lemma FullRoomStops(h: Housing, capacities: Capacities, updates: seq<Update>, q: RoomId, b: StudentId)
    requires RoomTrigger.OnceEach(h, updates) && |updates| > 0 && updates[0].room == Some(q) && h[updates[0].id] != Some(q)
    requires RoomTrigger.Occupants(h, q) == {b} && q in capacities && capacities[q] == 1
    ensures RoomTrigger.Run(h, capacities, updates).None?
  {
    RoomTrigger.RunIff(h, capacities, updates);
    assert RoomTrigger.RoomAfter(h, updates[..0], q) == {b};
    assert !RoomTrigger.BedFor(h, capacities, updates, 0);
  }

  lemma OneEachWithin(a: StudentId, b: StudentId, r: RoomId, q: RoomId)
    requires a != b && r != q
    ensures var h: Housing := map[a := Some(r), b := Some(q)];
            RoomTrigger.Occupants(h, r) == {a} && RoomTrigger.Occupants(h, q) == {b}
            && RoomTrigger.WithinCapacity(h, map[r := 1, q := 1])
  {
    var h: Housing := map[a := Some(r), b := Some(q)];
    assert RoomTrigger.Occupants(h, r) == {a} && RoomTrigger.Occupants(h, q) == {b};
  }
}
