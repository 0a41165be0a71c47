/**
 A whole first-come, first-served run, from the locked rooms to the last
 student in the queue.
 */
module FcfsRun {
  import opened Common
  import opened AllocationModel
  import opened AtomicUnits
  import opened Individuals
  import opened InitialState
  import opened Fcfs

  /** The last result that names the student. */
  function Latest(rs: seq<Result>, id: StudentId): Option<Result> {
    if rs == [] then None
    else if rs[|rs| - 1].studentId == id then Some(rs[|rs| - 1])
    else Latest(rs[..|rs| - 1], id)
  }

  function SeatOf(s: State, id: StudentId): Option<RoomId> {
    if id in s.placed then Some(s.placed[id]) else None
  }

  /** A success names the student's final room, and no student has two. */
  ghost predicate SuccessesStand(inp: Inputs, s: State, rs: seq<Result>) {
    && (forall i :: 0 <= i < |rs| ==>
          && rs[i].studentId in Cohort(inp)
          && (rs[i].roomId.Some? ==> SeatOf(s, rs[i].studentId) == rs[i].roomId))
    && (forall i, j :: 0 <= i < j < |rs| && rs[i].roomId.Some? && rs[j].roomId.Some? ==> rs[i].studentId != rs[j].studentId)
  }

  /** The last result naming a student tells where the student sits; every seated cohort student is named. */
  ghost predicate LastWord(inp: Inputs, s: State, rs: seq<Result>) {
    forall id :: id in Cohort(inp) ==>
      && (Latest(rs, id).Some? ==> Latest(rs, id).value.roomId == SeatOf(s, id))
      && (Latest(rs, id).None? ==> id !in s.placed)
  }

  lemma {:induction false} LatestAppend(rs: seq<Result>, more: seq<Result>, id: StudentId)
    ensures Latest(rs + more, id) == if Latest(more, id).Some? then Latest(more, id) else Latest(rs, id)
  {
    if more == [] {
      assert rs + more == rs;
    } else {
      var n := |more| - 1;
      LatestAppend(rs, more[..n], id);
      assert (rs + more)[..|rs + more| - 1] == rs + more[..n];
    }
  }

  lemma {:induction false} LatestFinds(rs: seq<Result>, id: StudentId)
    ensures Latest(rs, id).Some? ==> Latest(rs, id).value in rs && Latest(rs, id).value.studentId == id
    ensures Latest(rs, id).None? ==> forall i :: 0 <= i < |rs| ==> rs[i].studentId != id
  {
    if rs != [] {
      var n := |rs| - 1;
      assert rs == rs[..n] + [rs[n]];
      LatestFinds(rs[..n], id);
    }
  }

  /** One attempt: the party was unplaced, and its results tell where its members are now. */
  ghost predicate Tried(inp: Inputs, s: State, s': State, unit: Unit, more: seq<Result>) {
    && Unique(Ids(unit)) && Unplaced(s, unit) && IdSet(unit) <= Cohort(inp)
    && Grows(s, s') && s'.placed.Keys <= s.placed.Keys + IdSet(unit)
    && ReportsState(s', unit, more)
  }

  lemma LastWordAfter(inp: Inputs, s: State, s': State, rs: seq<Result>, unit: Unit, more: seq<Result>)
    requires LastWord(inp, s, rs) && Tried(inp, s, s', unit, more)
    ensures LastWord(inp, s', rs + more)
  {
    forall id | id in Cohort(inp)
      ensures Latest(rs + more, id).Some? ==> Latest(rs + more, id).value.roomId == SeatOf(s', id)
      ensures Latest(rs + more, id).None? ==> id !in s'.placed
    {
      LatestAppend(rs, more, id);
      LatestFinds(more, id);
    }
  }

  lemma SuccessesAfter(inp: Inputs, s: State, s': State, rs: seq<Result>, unit: Unit, more: seq<Result>)
    requires SuccessesStand(inp, s, rs) && Tried(inp, s, s', unit, more)
    ensures SuccessesStand(inp, s', rs + more)
  {
  }

  /** Serving the last student of the order tries one party. */
  lemma ServeTries(inp: Inputs, s: State, order: seq<Student>)
    requires WellFormed(inp) && Sound(inp, s) && Counted(inp, s) && Together(inp, s)
    requires |order| > 0 && forall m :: m in order ==> m in inp.students
    requires order[|order| - 1].userId !in Serve(inp, s, order[..|order| - 1]).0.placed
    ensures var before, after := Serve(inp, s, order[..|order| - 1]), Serve(inp, s, order);
            exists unit, more :: Tried(inp, before.0, after.0, unit, more) && after.1 == before.1 + more
                                 && order[|order| - 1].userId in IdSet(unit)
  {
    var n := |order| - 1;
    assert order[n] in order && forall m :: m in order[..n] ==> m in order;
    ServeKeeps(inp, s, order[..n]);
    ServeStep(inp, s, order);
    var before := Serve(inp, s, order[..n]);
    var unit := Party(inp, before.0, order[n]);
    PartyTried(inp, before.0, order[n]);
    assert Tried(inp, before.0, Serve(inp, s, order).0, unit, Settle(inp, before.0, unit).1);
  }

  lemma PartyTried(inp: Inputs, s: State, student: Student)
    requires WellFormed(inp) && Sound(inp, s) && Counted(inp, s) && Together(inp, s)
    requires student in inp.students && student.userId !in s.placed
    ensures var unit := Party(inp, s, student);
            Tried(inp, s, Settle(inp, s, unit).0, unit, Settle(inp, s, unit).1) && student.userId in IdSet(unit)
  {
    var unit := Party(inp, s, student);
    PartyIsOneUnit(inp, s, student);
    PartyClosed(inp, s, student);
    SettleKeeps(inp, s, unit);
    SettleReports(inp, s, unit);
    assert unit[0] in unit;
  }

  ghost predicate Reported(inp: Inputs, s: State, rs: seq<Result>) {
    SuccessesStand(inp, s, rs) && LastWord(inp, s, rs)
  }

  lemma {:induction false} ServeReported(inp: Inputs, s: State, order: seq<Student>)
    requires WellFormed(inp) && Sound(inp, s) && Counted(inp, s) && Together(inp, s)
    requires s.placed.Keys !! Cohort(inp)
    requires forall m :: m in order ==> m in inp.students
    ensures Reported(inp, Serve(inp, s, order).0, Serve(inp, s, order).1)
  {
    if order != [] {
      var n := |order| - 1;
      assert order[n] in order && forall m :: m in order[..n] ==> m in order;
      ServeReported(inp, s, order[..n]);
      var before, after := Serve(inp, s, order[..n]), Serve(inp, s, order);
      if order[n].userId !in before.0.placed {
        ServeTries(inp, s, order);
        var unit, more :| Tried(inp, before.0, after.0, unit, more) && after.1 == before.1 + more;
        LastWordAfter(inp, before.0, after.0, before.1, unit, more);
        SuccessesAfter(inp, before.0, after.0, before.1, unit, more);
      }
    }
  }

  /** A try adds results for its members, and takes nobody's last result away. */
  lemma TryNames(inp: Inputs, s: State, s': State, unit: Unit, rs: seq<Result>, more: seq<Result>, id: StudentId)
    requires Tried(inp, s, s', unit, more)
    requires Latest(rs, id).Some? || id in IdSet(unit)
    ensures Latest(rs + more, id).Some?
  {
    LatestAppend(rs, more, id);
    LatestFinds(more, id);
  }

  /** Serving the last student of the order names that student, and keeps everyone named before. */
  lemma ServingNames(inp: Inputs, s: State, order: seq<Student>, id: StudentId)
    requires WellFormed(inp) && Sound(inp, s) && Counted(inp, s) && Together(inp, s) && s.placed.Keys !! Cohort(inp)
    requires |order| > 0 && forall m :: m in order ==> m in inp.students
    requires id == order[|order| - 1].userId || Latest(Serve(inp, s, order[..|order| - 1]).1, id).Some?
    ensures Latest(Serve(inp, s, order).1, id).Some?
  {
    var n := |order| - 1;
    assert order[n] in order && forall m :: m in order[..n] ==> m in order;
    var before, after := Serve(inp, s, order[..n]), Serve(inp, s, order);
    if order[n].userId in before.0.placed {
      ServeReported(inp, s, order[..n]);
    } else {
      ServeTries(inp, s, order);
      var unit, more :| Tried(inp, before.0, after.0, unit, more) && after.1 == before.1 + more && order[n].userId in IdSet(unit);
      TryNames(inp, before.0, after.0, unit, before.1, more, id);
    }
  }

  /** Some result of the run names the student; stated so that recursion need not look inside. */
  ghost predicate Named(inp: Inputs, s: State, order: seq<Student>, id: StudentId) {
    forall run :: run == Serve(inp, s, order) ==> Latest(run.1, id).Some?
  }

  lemma NamedNext(inp: Inputs, s: State, order: seq<Student>, id: StudentId)
    requires WellFormed(inp) && Sound(inp, s) && Counted(inp, s) && Together(inp, s) && s.placed.Keys !! Cohort(inp)
    requires |order| > 0 && forall m :: m in order ==> m in inp.students
    requires id == order[|order| - 1].userId || Named(inp, s, order[..|order| - 1], id)
    ensures Named(inp, s, order, id)
  {
    assert id == order[|order| - 1].userId || Latest(Serve(inp, s, order[..|order| - 1]).1, id).Some?;
    ServingNames(inp, s, order, id);
  }

  /** The student, placed or not, is named by some result of the run. */
  lemma {:induction false} EveryoneNamed(inp: Inputs, s: State, order: seq<Student>, k: nat)
    requires WellFormed(inp) && Sound(inp, s) && Counted(inp, s) && Together(inp, s)
    requires s.placed.Keys !! Cohort(inp) && k < |order|
    requires forall m :: m in order ==> m in inp.students
    ensures Named(inp, s, order, order[k].userId)
  {
    var n := |order| - 1;
    if k < n {
      assert forall m :: m in order[..n] ==> m in order;
      EveryoneNamed(inp, s, order[..n], k);
    }
    NamedNext(inp, s, order, order[k].userId);
  }

  // ---------- Where students may sit ----------

  /** The room is one of the run's and valid for the student or the student's roommate. */
  ghost predicate RoomFor(inp: Inputs, m: Student, room: RoomId) {
    exists r, lead :: ValidForLead(inp, m, room, r, lead)
  }

  ghost predicate ValidForLead(inp: Inputs, m: Student, room: RoomId, r: Room, lead: Student) {
    && r in inp.rooms && r.id == room && lead in inp.students && ValidRoom(inp, lead, r)
    && (lead == m || (lead.userId in inp.roommates && inp.roommates[lead.userId] == m.userId))
  }

  ghost predicate AllInValidRooms(inp: Inputs, s: State) {
    forall m :: m in inp.students && m.userId in s.placed ==> RoomFor(inp, m, s.placed[m.userId])
  }

  /** A party is seated, if at all, in a room valid for its lead. */
  lemma PartyInValidRoom(inp: Inputs, s: State, student: Student)
    requires WellFormed(inp) && student in inp.students && AllInValidRooms(inp, s)
    ensures AllInValidRooms(inp, Settle(inp, s, Party(inp, s, student)).0)
  {
    var u := Party(inp, s, student);
    var s', room := Settle(inp, s, u).0, BestRoom(inp, s, student, |u|);
    BestRoomIsBest(inp, s, student, |u|);
    IdsOfUnit(u);
    forall m | m in inp.students && m.userId in s'.placed
      ensures RoomFor(inp, m, s'.placed[m.userId])
    {
      if m.userId in IdSet(u) && room.Some? {
        PartyMember(inp, s, student, m);
        assert ValidForLead(inp, m, room.value.id, room.value, student);
      }
    }
  }

  lemma PartyMember(inp: Inputs, s: State, student: Student, m: Student)
    requires WellFormed(inp) && student in inp.students && m in inp.students && m.userId in IdSet(Party(inp, s, student))
    ensures student == m || (student.userId in inp.roommates && inp.roommates[student.userId] == m.userId)
  {
    if m.userId == student.userId {
      SameStudent(inp, m, student);
    }
  }

  lemma SameStudent(inp: Inputs, a: Student, b: Student)
    requires WellFormed(inp) && a in inp.students && b in inp.students && a.userId == b.userId
    ensures a == b
  {
    var i :| 0 <= i < |inp.students| && inp.students[i] == a;
    var j :| 0 <= j < |inp.students| && inp.students[j] == b;
    assert Ids(inp.students)[i] == Ids(inp.students)[j];
  }

  lemma {:induction false} ServedInValidRooms(inp: Inputs, s: State, order: seq<Student>)
    requires WellFormed(inp) && s.placed.Keys !! Cohort(inp) && forall m :: m in order ==> m in inp.students
    ensures AllInValidRooms(inp, Serve(inp, s, order).0)
  {
    if order != [] {
      var n := |order| - 1;
      assert order[n] in order && forall m :: m in order[..n] ==> m in order;
      ServedInValidRooms(inp, s, order[..n]);
      if order[n].userId !in Serve(inp, s, order[..n]).0.placed {
        ServeStep(inp, s, order);
        PartyInValidRoom(inp, Serve(inp, s, order[..n]).0, order[n]);
      }
    }
  }

  // ---------- Who was first ----------

  /** Student i applied before student j: at an earlier time, or at the same time and listed first. */
  predicate AppliedFirst(inp: Inputs, i: nat, j: nat)
    requires i < |inp.students| && j < |inp.students|
  {
    var a, b := inp.students[i].timestamp, inp.students[j].timestamp;
    || (a.Some? && b.Some? && a.value < b.value)
    || (a.Some? && b.None? && a.value < 99991231235959)
    || (a == b && i < j)
  }

  /** Student a has a room that rule priority and a's hostel preference put no lower than q. */
  ghost predicate DoesAsWell(inp: Inputs, s: State, a: Student, q: Room) {
    a.userId in s.placed && exists r :: r in inp.rooms && r.id == s.placed[a.userId] && AtLeastAsGood(inp, a, r, q)
  }

  /** Of two students without roommates, the one who applied first does not envy the other. */
  ghost predicate FirstFarsNoWorse(inp: Inputs, s: State) {
    forall i, j, q :: 0 <= i < |inp.students| && 0 <= j < |inp.students| && AppliedFirst(inp, i, j) && q in inp.rooms
      && inp.students[i].userId !in inp.roommates && inp.students[j].userId !in inp.roommates
      && inp.students[j].userId in s.placed && s.placed[inp.students[j].userId] == q.id && ValidRoom(inp, inp.students[i], q)
      ==> DoesAsWell(inp, s, inp.students[i], q)
  }

  /** Serving others leaves a student without a roommate unplaced. */
  lemma {:induction false} NotServedYet(inp: Inputs, s: State, order: seq<Student>, a: Student)
    requires WellFormed(inp) && (forall m :: m in order ==> m in inp.students && m.userId != a.userId)
    requires a.userId !in inp.roommates && a.userId !in s.placed
    ensures a.userId !in Serve(inp, s, order).0.placed
  {
    if order != [] {
      var n := |order| - 1;
      assert order[n] in order && forall m :: m in order[..n] ==> m in order;
      NotServedYet(inp, s, order[..n], a);
      var before := Serve(inp, s, order[..n]).0;
      if order[n].userId !in before.placed {
        ServeStep(inp, s, order);
        var unit := Party(inp, before, order[n]);
        NotInParty(inp, before, order[n], a);
        IdsOfUnit(unit);
      }
    }
  }

  lemma NotInParty(inp: Inputs, s: State, student: Student, a: Student)
    requires WellFormed(inp) && student.userId != a.userId && a.userId !in inp.roommates
    ensures a.userId !in IdSet(Party(inp, s, student))
  {
  }

  /** Students of the cohort, each once. */
  ghost predicate Queue(inp: Inputs, order: seq<Student>) {
    (forall m :: m in order ==> m in inp.students) && Unique(Ids(order))
  }

  /** The student at position k of the order, if without a roommate, is settled alone at that turn. */
  lemma ServedAlone(inp: Inputs, s: State, order: seq<Student>, k: nat) returns (before: State)
    requires WellFormed(inp) && Sound(inp, s) && Counted(inp, s) && Together(inp, s)
    requires s.placed.Keys !! Cohort(inp) && Queue(inp, order)
    requires k < |order| && order[k].userId !in inp.roommates
    ensures before == Serve(inp, s, order[..k]).0 && order[k].userId !in before.placed
    ensures Serve(inp, s, order[..k + 1]).0 == Settle(inp, before, [order[k]]).0
  {
    assert order[k] in order && forall m :: m in order[..k] ==> m in order;
    forall m | m in order[..k]
      ensures m.userId != order[k].userId
    {
      var i :| 0 <= i < k && order[..k][i] == m;
      assert Ids(order)[i] != Ids(order)[k];
    }
    assert order[k].userId in Cohort(inp);
    NotServedYet(inp, s, order[..k], order[k]);
    before := Serve(inp, s, order[..k]).0;
    assert order[..k + 1][..k] == order[..k];
    ServeStep(inp, s, order[..k + 1]);
  }

  lemma {:induction false} ServedGrows(inp: Inputs, s: State, order: seq<Student>, i: nat)
    requires WellFormed(inp) && Sound(inp, s) && Counted(inp, s) && Together(inp, s)
    requires i <= |order| && forall m :: m in order ==> m in inp.students
    ensures Grows(Serve(inp, s, order[..i]).0, Serve(inp, s, order).0)
  {
    var n := |order| - 1;
    if i <= n {
      assert forall m :: m in order[..n] ==> m in order;
      assert order[..n][..i] == order[..i];
      ServedGrows(inp, s, order[..n], i);
      ServeGrows(inp, s, order);
    } else {
      assert order[..i] == order;
    }
  }

  /** The order leaves the student without a room; stated like Named. */
  ghost predicate LeftOut(inp: Inputs, s: State, order: seq<Student>, id: StudentId) {
    forall run :: run == Serve(inp, s, order) ==> id !in run.0.placed
  }

  /** The last one refused or placed is not the one at position k, whom the prefix left out. */
  lemma RefusedStep(inp: Inputs, s: State, order: seq<Student>, k: nat)
    requires WellFormed(inp) && Queue(inp, order) && k < |order| - 1 && order[k].userId !in inp.roommates
    requires LeftOut(inp, s, order[..|order| - 1], order[k].userId)
    ensures LeftOut(inp, s, order, order[k].userId)
  {
    assert order[|order| - 1] in order;
    PrefixUnique(order, k);
    LastTurnElsewhere(inp, s, order, order[k]);
  }

  lemma QueuePrefix(inp: Inputs, order: seq<Student>, k: nat)
    requires Queue(inp, order) && k < |order| - 1
    ensures Queue(inp, order[..|order| - 1]) && order[..|order| - 1][..k + 1] == order[..k + 1]
  {
    PrefixUnique(order, k);
    assert forall m :: m in order[..|order| - 1] ==> m in order;
  }

  /** Serving those after it does not place a student without a roommate who was refused. */
  lemma {:induction false} RefusedForGood(inp: Inputs, s: State, order: seq<Student>, k: nat)
    requires WellFormed(inp) && Queue(inp, order)
    requires k < |order| && order[k].userId !in inp.roommates && LeftOut(inp, s, order[..k + 1], order[k].userId)
    ensures LeftOut(inp, s, order, order[k].userId)
  {
    if k < |order| - 1 {
      QueuePrefix(inp, order, k);
      RefusedForGood(inp, s, order[..|order| - 1], k);
      RefusedStep(inp, s, order, k);
    } else {
      assert order[..k + 1] == order;
    }
  }

  lemma PrefixUnique(order: seq<Student>, k: nat)
    requires Unique(Ids(order)) && k < |order| - 1
    ensures Unique(Ids(order[..|order| - 1])) && order[|order| - 1].userId != order[k].userId
  {
    var ids, before := Ids(order), Ids(order[..|order| - 1]);
    assert forall i :: 0 <= i < |before| ==> before[i] == ids[i];
    assert ids[k] != ids[|order| - 1];
  }

  lemma LastTurnElsewhere(inp: Inputs, s: State, order: seq<Student>, a: Student)
    requires WellFormed(inp) && |order| > 0 && order[|order| - 1] in inp.students && order[|order| - 1].userId != a.userId
    requires a.userId !in inp.roommates && LeftOut(inp, s, order[..|order| - 1], a.userId)
    ensures LeftOut(inp, s, order, a.userId)
  {
    var n := |order| - 1;
    var before := Serve(inp, s, order[..n]).0;
    assert a.userId !in before.placed by {
      assert before == Serve(inp, s, order[..n]).0;
    }
    if order[n].userId !in before.placed {
      ServeStep(inp, s, order);
      NotInParty(inp, before, order[n], a);
      IdsOfUnit(Party(inp, before, order[n]));
    }
  }

  lemma SettledAlone(inp: Inputs, s: State, x: Student)
    ensures var room := BestRoom(inp, s, x, 1);
            Settle(inp, s, [x]).0.placed == if room.Some? then s.placed[x.userId := room.value.id] else s.placed
  {
    assert Ids([x]) == [x.userId];
  }

  /** Whoever met fewer occupants found every room with a bed that the other found. */
  lemma AloneDoesAsWell(inp: Inputs, a: State, b: State, x: Student, y: Student, q: Room)
    requires WellFormed(inp) && Grows(a, b) && q in inp.rooms && ValidRoom(inp, x, q)
    requires BestRoom(inp, b, y, 1).Some? && BestRoom(inp, b, y, 1).value.id == q.id
    ensures var got := BestRoom(inp, a, x, 1); got.Some? && got.value in inp.rooms && AtLeastAsGood(inp, x, got.value, q)
  {
    BestRoomIsBest(inp, b, y, 1);
    BestRoomIsBest(inp, a, x, 1);
    RoomById(inp, BestRoom(inp, b, y, 1).value, q);
    assert Fits(a, q, 1);
  }

  /** The turn of a student without a roommate decides where that student sits. */
  lemma TurnDecides(inp: Inputs, s: State, order: seq<Student>, k: nat) returns (before: State)
    requires WellFormed(inp) && Sound(inp, s) && Counted(inp, s) && Together(inp, s)
    requires s.placed.Keys !! Cohort(inp) && Queue(inp, order)
    requires k < |order| && order[k].userId !in inp.roommates
    ensures before == Serve(inp, s, order[..k]).0
    ensures var room := BestRoom(inp, before, order[k], 1);
            SeatOf(Serve(inp, s, order).0, order[k].userId) == if room.Some? then Some(room.value.id) else None
  {
    before := ServedAlone(inp, s, order, k);
    SettledAlone(inp, before, order[k]);
    ServedGrows(inp, s, order, k + 1);
    if BestRoom(inp, before, order[k], 1).None? {
      RefusedForGood(inp, s, order, k);
    }
  }

  /** The earlier of two students without roommates does as well as the later one in the earlier one's eyes. */
  lemma EarlierServed(inp: Inputs, s: State, order: seq<Student>, i: nat, j: nat, q: Room)
    requires WellFormed(inp) && Sound(inp, s) && Counted(inp, s) && Together(inp, s)
    requires s.placed.Keys !! Cohort(inp) && Queue(inp, order)
    requires i < j < |order| && order[i].userId !in inp.roommates && order[j].userId !in inp.roommates
    requires SeatOf(Serve(inp, s, order).0, order[j].userId) == Some(q.id)
    requires q in inp.rooms && ValidRoom(inp, order[i], q)
    ensures DoesAsWell(inp, Serve(inp, s, order).0, order[i], q)
  {
    var a := TurnDecides(inp, s, order, i);
    var b := TurnDecides(inp, s, order, j);
    MetFewer(inp, s, order, i, j);
    AloneDoesAsWell(inp, a, b, order[i], order[j], q);
  }

  lemma MetFewer(inp: Inputs, s: State, order: seq<Student>, i: nat, j: nat)
    requires WellFormed(inp) && Sound(inp, s) && Counted(inp, s) && Together(inp, s)
    requires i <= j <= |order| && forall m :: m in order ==> m in inp.students
    ensures Grows(Serve(inp, s, order[..i]).0, Serve(inp, s, order[..j]).0)
  {
    assert forall m :: m in order[..j] ==> m in order;
    assert order[..j][..i] == order[..i];
    ServedGrows(inp, s, order[..j], i);
  }

  /** So it is at the end of a whole run. */
  lemma RunIsFirstFair(inp: Inputs)
    requires WellFormed(inp)
    ensures FirstFarsNoWorse(inp, Serve(inp, Initial(inp), ArrivalOrder(inp)).0)
  {
    var s, order := Initial(inp), ArrivalOrder(inp);
    var s' := Serve(inp, s, order).0;
    InitialSound(inp);
    ArrivalOrderMembers(inp);
    OrderUnique(inp);
    forall i, j, q | 0 <= i < |inp.students| && 0 <= j < |inp.students| && AppliedFirst(inp, i, j) && q in inp.rooms
      && inp.students[i].userId !in inp.roommates && inp.students[j].userId !in inp.roommates
      && inp.students[j].userId in s'.placed && s'.placed[inp.students[j].userId] == q.id && ValidRoom(inp, inp.students[i], q)
      ensures DoesAsWell(inp, s', inp.students[i], q)
    {
      var p, r := PlacesInOrder(inp, i, j);
      EarlierServed(inp, s, order, p, r, q);
    }
  }

  lemma OrderUnique(inp: Inputs)
    requires WellFormed(inp)
    ensures Unique(Ids(ArrivalOrder(inp)))
  {
    var order := ArrivalOrder(inp);
    ArrivalOrderIs(inp);
    assert Unique(inp.students) by {
      assert forall i :: 0 <= i < |inp.students| ==> Ids(inp.students)[i] == inp.students[i].userId;
    }
    UniquePermuted(inp.students, order);
    SameElements(order, inp.students);
    forall i, j | 0 <= i < j < |order|
      ensures Ids(order)[i] != Ids(order)[j]
    {
      assert order[i] in inp.students && order[j] in inp.students;
      if order[i].userId == order[j].userId {
        SameStudent(inp, order[i], order[j]);
      }
    }
  }

  /** Who applied first is served first. */
  lemma PlacesInOrder(inp: Inputs, i: nat, j: nat) returns (p: nat, q: nat)
    requires WellFormed(inp) && i < |inp.students| && j < |inp.students| && AppliedFirst(inp, i, j)
    ensures p < q < |ArrivalOrder(inp)| && ArrivalOrder(inp)[p] == inp.students[i] && ArrivalOrder(inp)[q] == inp.students[j]
  {
    var order := ArrivalOrder(inp);
    ArrivalOrderIs(inp);
    if inp.students[i].timestamp == inp.students[j].timestamp {
      p, q :| 0 <= p < q < |order| && order[p] == inp.students[i] && order[q] == inp.students[j];
    } else {
      SameElements(order, inp.students);
      assert inp.students[i] in order && inp.students[j] in order;
      p :| 0 <= p < |order| && order[p] == inp.students[i];
      q :| 0 <= q < |order| && order[q] == inp.students[j];
    }
  }

  /** What a first-come, first-served run ends with, whatever the groups are. */
  ghost predicate FcfsEnds(inp: Inputs, s: State, rs: seq<Result>) {
    && Sound(inp, s) && Counted(inp, s) && Together(inp, s) && Grows(Initial(inp), s)
    && SuccessesStand(inp, s, rs) && AllInValidRooms(inp, s) && FirstFarsNoWorse(inp, s)
    && (forall m :: m in inp.students ==>
          && Latest(rs, m.userId).Some? && Latest(rs, m.userId).value.roomId == SeatOf(s, m.userId)
          && SeatedOrRefused(inp, s, m))
  }

  /**
   The whole run: capacity, locks, counters and pairs are kept; everyone
   seated is in a room valid for them or their roommate; the last result
   naming a student tells where the student sits; and a student is left out
   only when no room valid for that student has the beds its unit needs.
   */
  lemma FcfsRunEnds(inp: Inputs)
    requires WellFormed(inp)
    ensures var run := Serve(inp, Initial(inp), ArrivalOrder(inp));
            FcfsEnds(inp, run.0, run.1)
  {
    var s, order := Initial(inp), ArrivalOrder(inp);
    var run := Serve(inp, s, order);
    InitialSound(inp);
    ArrivalOrderMembers(inp);
    ServeKeeps(inp, s, order);
    ServeReported(inp, s, order);
    ServedInValidRooms(inp, s, order);
    RunIsFirstFair(inp);
    forall m | m in inp.students
      ensures Latest(run.1, m.userId).Some? && Latest(run.1, m.userId).value.roomId == SeatOf(run.0, m.userId)
      ensures SeatedOrRefused(inp, run.0, m)
    {
      var k :| 0 <= k < |order| && order[k] == m;
      EveryoneNamed(inp, s, order, k);
      assert Latest(run.1, m.userId).Some?;
      ServedOrRefused(inp, s, order, k);
    }
  }

  lemma ArrivalOrderMembers(inp: Inputs)
    ensures forall m :: m in ArrivalOrder(inp) <==> m in inp.students
  {
    ArrivalOrderIs(inp);
    SameElements(ArrivalOrder(inp), inp.students);
  }

  // ---------- The loop ----------

  /** The loop after its first k students. */
  ghost predicate Serving(inp: Inputs, order: seq<Student>, k: nat, s: State, rs: seq<Result>) {
    k <= |order| && (s, rs) == Serve(inp, Initial(inp), order[..k])
  }

  lemma ServingPlaced(inp: Inputs, order: seq<Student>, k: nat, s: State, rs: seq<Result>)
    requires Serving(inp, order, k, s, rs) && k < |order| && order[k].userId in s.placed
    ensures Serving(inp, order, k + 1, s, rs)
  {
    assert order[..k + 1][..k] == order[..k];
  }

  lemma ServingOne(inp: Inputs, order: seq<Student>, k: nat, s: State, rs: seq<Result>, s': State, more: seq<Result>)
    requires Serving(inp, order, k, s, rs) && k < |order| && order[k].userId !in s.placed
    requires forall u :: u in SortUnits(Units(inp.roommates, Party(inp, s, order[k]))) ==> |u| >= 1
    requires (s', more) == SettleAll(inp, s, SortUnits(Units(inp.roommates, Party(inp, s, order[k]))))
    ensures Serving(inp, order, k + 1, s', rs + more)
  {
    assert order[..k + 1][..k] == order[..k];
  }

  lemma ServingEnd(inp: Inputs, order: seq<Student>, s: State, rs: seq<Result>)
    requires WellFormed(inp) && order == ArrivalOrder(inp) && Serving(inp, order, |order|, s, rs)
    ensures (s, rs) == Serve(inp, Initial(inp), ArrivalOrder(inp)) && FcfsEnds(inp, s, rs)
  {
    assert order[..|order|] == order;
    FcfsRunEnds(inp);
  }
}
