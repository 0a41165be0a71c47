/**
 First come, first served: students in order of application, each bringing
 along an unplaced roommate, each attempt settled on its own.
 */
module Fcfs {
  import opened Common
  import opened AllocationModel
  import opened AtomicUnits
  import opened Individuals

  const NO_TIMESTAMP := 99991231235959

  function ByTime(s: Student): seq<int> {
    [if s.timestamp.Some? then s.timestamp.value else NO_TIMESTAMP]
  }

  /** `sorted(students, key=timestamp or sentinel)`. */
  function ArrivalOrder(inp: Inputs): seq<Student> {
    SortBy(inp.students, ByTime)
  }

  /**
   All students once each: earlier applications first, a missing time counting
   as the last second of the year 9999, and equal times in the order of the list.
   */
  lemma ArrivalOrderIs(inp: Inputs)
    ensures var order := ArrivalOrder(inp);
            && multiset(order) == multiset(inp.students)
            && (forall i, j :: 0 <= i < j < |order| && order[i].timestamp.Some? && order[j].timestamp.Some?
                  ==> order[i].timestamp.value <= order[j].timestamp.value)
            && (forall i, j :: 0 <= i < j < |order| && order[i].timestamp.None? && order[j].timestamp.Some?
                  ==> 99991231235959 <= order[j].timestamp.value)
            && (forall i, j :: 0 <= i < j < |order| && order[i].timestamp.Some? && order[j].timestamp.None?
                  ==> order[i].timestamp.value <= 99991231235959)
            && (forall i, j :: 0 <= i < j < |inp.students| && inp.students[i].timestamp == inp.students[j].timestamp
                  ==> Precedes(order, inp.students[i], inp.students[j]))
  {
    var order := ArrivalOrder(inp);
    SortByPermutes(inp.students, ByTime);
    SortBySorted(inp.students, ByTime);
    forall i, j | 0 <= i < j < |order|
      ensures ByTime(order[i])[0] <= ByTime(order[j])[0]
    {
      assert LexLeq(ByTime(order[i]), ByTime(order[j]));
    }
    forall i, j | 0 <= i < j < |inp.students| && inp.students[i].timestamp == inp.students[j].timestamp
      ensures Precedes(order, inp.students[i], inp.students[j])
    {
      SortByStable(inp.students, ByTime, i, j);
    }
  }

  /** The student, and the roommate if that one is in the cohort and unplaced. */
  function Party(inp: Inputs, s: State, student: Student): (u: Unit)
    ensures 1 <= |u| <= 2 && u[0] == student
  {
    if student.userId in inp.roommates then
      var mate := inp.roommates[student.userId];
      if mate != "" && mate in ById(inp.students) && mate !in s.placed
      then [student, ById(inp.students)[mate]]
      else [student]
    else [student]
  }

  function Serve(inp: Inputs, s: State, order: seq<Student>): (State, seq<Result>) {
    if order == [] then (s, [])
    else
      var n := |order| - 1;
      var before := Serve(inp, s, order[..n]);
      if order[n].userId in before.0.placed then before
      else
        var units := SortUnits(Units(inp.roommates, Party(inp, before.0, order[n])));
        SortUnitsPairsFirst(Units(inp.roommates, Party(inp, before.0, order[n])));
        var step := SettleAll(inp, before.0, units);
        (step.0, before.1 + step.1)
  }

  lemma {:induction false} ServeExplains(inp: Inputs, s: State, order: seq<Student>)
    ensures forall r :: r in Serve(inp, s, order).1 ==> Explained(r) && r.groupId.None?
  {
    if order != [] {
      var n := |order| - 1;
      var before := Serve(inp, s, order[..n]);
      ServeExplains(inp, s, order[..n]);
      if order[n].userId !in before.0.placed {
        var units := Units(inp.roommates, Party(inp, before.0, order[n]));
        SortUnitsPairsFirst(units);
        SettleAllExplains(inp, before.0, SortUnits(units));
      }
    }
  }

  /** One try to place a party: the state it met, the party, and the room it got. */
  datatype Attempt = Attempt(before: State, unit: Unit, room: Option<Room>)

  function AttemptResults(a: Attempt): seq<Result> {
    if a.room.Some? then UnitResults(a.unit, Some(a.room.value.id), None, None)
    else UnitResults(a.unit, None, None, Some(NO_ROOM))
  }

  function ResultsOf(attempts: seq<Attempt>): seq<Result> {
    if attempts == [] then []
    else ResultsOf(attempts[..|attempts| - 1]) + AttemptResults(attempts[|attempts| - 1])
  }

  function Attempts(inp: Inputs, s: State, order: seq<Student>): (r: seq<Attempt>)
    ensures forall a :: a in r ==> |a.unit| >= 1
  {
    if order == [] then []
    else
      var n := |order| - 1;
      var before := Serve(inp, s, order[..n]).0;
      if order[n].userId in before.placed then Attempts(inp, s, order[..n])
      else
        var unit := Party(inp, before, order[n]);
        Attempts(inp, s, order[..n]) + [Attempt(before, unit, BestRoom(inp, before, order[n], |unit|))]
  }

  // ---------- A party is one atomic unit ----------

  lemma PartyIsOneUnit(inp: Inputs, s: State, student: Student)
    requires IsMatching(inp.roommates) && student in inp.students
    ensures var u := Party(inp, s, student);
            SortUnits(Units(inp.roommates, u)) == [u] && Unique(Ids(u)) && IdSet(u) <= Cohort(inp)
  {
    var u := Party(inp, s, student);
    if |u| == 2 {
      OneUnitOfTwo(inp.roommates, u);
    } else {
      OneUnitOfOne(inp.roommates, u);
    }
    SortUnitsPairsFirst([u]);
    SameElements(SortUnits([u]), [u]);
    assert forall m :: m in u ==> m in inp.students;
  }

  lemma OneUnitOfOne(rm: Roommates, u: Unit)
    requires IsMatching(rm) && |u| == 1
    ensures Units(rm, u) == [u]
  {
    assert ById(u).Keys == {u[0].userId};
    assert UnitFor(rm, u, u[0]) == u;
    assert UnitsUpTo(rm, u, 0) == [];
    assert UnitsUpTo(rm, u, 1) == [u];
  }

  lemma OneUnitOfTwo(rm: Roommates, u: Unit)
    requires IsMatching(rm) && |u| == 2
    requires u[0].userId in rm && rm[u[0].userId] == u[1].userId
    ensures Units(rm, u) == [u]
  {
    assert u[1] in u;
    assert ById(u)[u[1].userId] == u[1];
    assert UnitFor(rm, u, u[0]) == u;
    assert UnitsUpTo(rm, u, 0) == [];
    assert UnitsUpTo(rm, u, 1) == [u];
    assert [] + [u] == [u];
    assert u[1].userId in IdSet(Flat([u]));
    assert UnitsUpTo(rm, u, 2) == [u];
  }

  /** Serving one unplaced student is settling the party. */
  lemma ServeStep(inp: Inputs, s: State, order: seq<Student>)
    requires WellFormed(inp) && |order| > 0 && order[|order| - 1] in inp.students
    requires order[|order| - 1].userId !in Serve(inp, s, order[..|order| - 1]).0.placed
    ensures var before := Serve(inp, s, order[..|order| - 1]);
            var step := Settle(inp, before.0, Party(inp, before.0, order[|order| - 1]));
            Serve(inp, s, order) == (step.0, before.1 + step.1)
  {
    var n := |order| - 1;
    var before := Serve(inp, s, order[..n]);
    var u := Party(inp, before.0, order[n]);
    PartyIsOneUnit(inp, before.0, order[n]);
    var none: seq<Unit> := [];
    assert [u][..0] == none;
    assert SettleAll(inp, before.0, [u]) == (Settle(inp, before.0, u).0, [] + Settle(inp, before.0, u).1);
    assert [] + Settle(inp, before.0, u).1 == Settle(inp, before.0, u).1;
  }

  lemma PartySize(inp: Inputs, s: State, student: Student)
    requires WellFormed(inp) && Together(inp, s)
    requires student in inp.students && student.userId !in s.placed
    ensures |Party(inp, s, student)| == UnitSize(inp.roommates, inp.students, student)
  {
    assert CohortPair(inp, student.userId) ==> SameSeat(inp, s, student.userId);
  }

  /** A party splits no pair, provided pairs have stayed together so far. */
  lemma PartyWithMate(inp: Inputs, s: State, student: Student)
    requires WellFormed(inp) && Together(inp, s) && student in inp.students && student.userId !in s.placed
    requires CohortPair(inp, student.userId)
    ensures inp.roommates[student.userId] !in s.placed
    ensures Party(inp, s, student) == [student, ById(inp.students)[inp.roommates[student.userId]]]
  {
    assert SameSeat(inp, s, student.userId);
  }

  lemma MatesClosed(inp: Inputs, u: Unit)
    requires IsMatching(inp.roommates) && |u| == 2 && u[0].userId in inp.roommates && inp.roommates[u[0].userId] == u[1].userId
    ensures PairClosed(inp, IdSet(u))
  {
    assert u[0] in u && u[1] in u;
    assert IdSet(u) == {u[0].userId, u[1].userId};
  }

  lemma PartyClosed(inp: Inputs, s: State, student: Student)
    requires WellFormed(inp) && Together(inp, s)
    requires student in inp.students && student.userId !in s.placed
    ensures PairClosed(inp, IdSet(Party(inp, s, student))) && Unplaced(s, Party(inp, s, student))
  {
    if CohortPair(inp, student.userId) {
      PartyWithMate(inp, s, student);
      MatesClosed(inp, Party(inp, s, student));
    } else {
      assert IdSet([student]) == {student.userId};
    }
  }

  /**
   Whatever the order of arrival and however the groups are made up, serving
   keeps capacity, the locks, the wing counters, and every accepted pair
   together: both members end in one room or both without a room.
   */
  lemma {:induction false} ServeKeeps(inp: Inputs, s: State, order: seq<Student>)
    requires WellFormed(inp) && Sound(inp, s) && Counted(inp, s) && Together(inp, s)
    requires forall m :: m in order ==> m in inp.students
    ensures var s' := Serve(inp, s, order).0;
            Sound(inp, s') && Counted(inp, s') && Together(inp, s') && Grows(s, s')
  {
    if order != [] {
      var n := |order| - 1;
      assert order[n] in order && forall m :: m in order[..n] ==> m in order;
      ServeKeeps(inp, s, order[..n]);
      var before := Serve(inp, s, order[..n]).0;
      if order[n].userId !in before.placed {
        ServeStep(inp, s, order);
        PartyIsOneUnit(inp, before, order[n]);
        PartyClosed(inp, before, order[n]);
        SettleKeeps(inp, before, Party(inp, before, order[n]));
      }
    }
  }

  // ---------- No envy ----------

  /** What is known of attempt i: it met a state no fuller than the final one, and took the best room. */
  ghost predicate AttemptSound(inp: Inputs, s: State, a: Attempt) {
    && Grows(a.before, s)
    && 1 <= |a.unit|
    && a.room == BestRoom(inp, a.before, a.unit[0], |a.unit|)
  }

  ghost predicate InOrder(attempts: seq<Attempt>) {
    forall i, j :: 0 <= i < j < |attempts| ==> Grows(attempts[i].before, attempts[j].before)
  }

  lemma {:induction false} AttemptsTrace(inp: Inputs, s: State, order: seq<Student>)
    requires WellFormed(inp) && Sound(inp, s) && Counted(inp, s) && Together(inp, s)
    requires forall m :: m in order ==> m in inp.students
    ensures InOrder(Attempts(inp, s, order))
    ensures forall a :: a in Attempts(inp, s, order) ==> AttemptSound(inp, Serve(inp, s, order).0, a)
  {
    if order != [] {
      var n := |order| - 1;
      assert order[n] in order && forall m :: m in order[..n] ==> m in order;
      AttemptsTrace(inp, s, order[..n]);
      ServeKeeps(inp, s, order[..n]);
      var before := Serve(inp, s, order[..n]).0;
      if order[n].userId !in before.placed {
        ServeStep(inp, s, order);
        PartyIsOneUnit(inp, before, order[n]);
        PartyClosed(inp, before, order[n]);
        SettleKeeps(inp, before, Party(inp, before, order[n]));
        TraceExtend(inp, before, Serve(inp, s, order).0, Attempts(inp, s, order[..n]),
                    Attempt(before, Party(inp, before, order[n]), BestRoom(inp, before, order[n], |Party(inp, before, order[n])|)));
      }
    }
  }

  lemma TraceExtend(inp: Inputs, s: State, s': State, earlier: seq<Attempt>, last: Attempt)
    requires InOrder(earlier) && forall a :: a in earlier ==> AttemptSound(inp, s, a)
    requires last.before == s && Grows(s, s') && AttemptSound(inp, s', last)
    ensures InOrder(earlier + [last])
    ensures forall a :: a in earlier + [last] ==> AttemptSound(inp, s', a)
  {
    forall i, j | 0 <= i < j < |earlier| + 1
      ensures Grows((earlier + [last])[i].before, (earlier + [last])[j].before)
    {
      assert earlier[i] in earlier;
    }
  }

  /**
   No envy. If party i was tried before party j and is no larger, then party
   i got a room at least as good, for its lead, as the room q that party j
   got, whenever q was valid for that lead. In particular, after a failed
   attempt no later party of at least its size sits in a room valid for its
   lead.
   */
  lemma NoEnvy(inp: Inputs, s: State, order: seq<Student>, i: nat, j: nat, q: Room)
    requires WellFormed(inp) && Sound(inp, s) && Counted(inp, s) && Together(inp, s)
    requires forall m :: m in order ==> m in inp.students
    requires var t := Attempts(inp, s, order);
             i < j < |t| && |t[i].unit| <= |t[j].unit| && t[j].room == Some(q)
             && ValidRoom(inp, t[i].unit[0], q)
    ensures var a := Attempts(inp, s, order)[i];
            a.room.Some? && AtLeastAsGood(inp, a.unit[0], a.room.value, q)
  {
    var t := Attempts(inp, s, order);
    AttemptsTrace(inp, s, order);
    var a, b := t[i], t[j];
    assert a in t && b in t;
    BestRoomIsBest(inp, b.before, b.unit[0], |b.unit|);
    assert q in inp.rooms && Fits(b.before, q, |b.unit|);
    assert Occ(a.before, q.id) <= Occ(b.before, q.id);
    BestRoomIsBest(inp, a.before, a.unit[0], |a.unit|);
  }

  // ---------- What is reported ----------

  /** The run reports exactly its attempts, in order; a pair that failed is tried and reported again. */
  lemma {:induction false} ResultsAreAttempts(inp: Inputs, s: State, order: seq<Student>)
    requires WellFormed(inp)
    requires forall m :: m in order ==> m in inp.students
    ensures Serve(inp, s, order).1 == ResultsOf(Attempts(inp, s, order))
  {
    if order != [] {
      var n := |order| - 1;
      assert order[n] in order && forall m :: m in order[..n] ==> m in order;
      ResultsAreAttempts(inp, s, order[..n]);
      var before := Serve(inp, s, order[..n]).0;
      if order[n].userId !in before.placed {
        LastAttempt(inp, s, order);
      }
    }
  }

  /** The last student served adds one attempt, and that attempt's results. */
  lemma LastAttempt(inp: Inputs, s: State, order: seq<Student>)
    requires WellFormed(inp) && |order| > 0 && order[|order| - 1] in inp.students
    requires order[|order| - 1].userId !in Serve(inp, s, order[..|order| - 1]).0.placed
    requires Serve(inp, s, order[..|order| - 1]).1 == ResultsOf(Attempts(inp, s, order[..|order| - 1]))
    ensures Serve(inp, s, order).1 == ResultsOf(Attempts(inp, s, order))
  {
    var n := |order| - 1;
    var before := Serve(inp, s, order[..n]).0;
    var unit := Party(inp, before, order[n]);
    ServeStep(inp, s, order);
  }

  /** Settling the party of an unplaced student seats the student, unless no valid room has the beds its unit needs. */
  lemma PartySettled(inp: Inputs, s: State, student: Student)
    requires WellFormed(inp) && Sound(inp, s) && Counted(inp, s) && Together(inp, s)
    requires student in inp.students && student.userId !in s.placed
    ensures var s' := Settle(inp, s, Party(inp, s, student)).0;
            && Grows(s, s')
            && SeatedOrRefused(inp, s', student)
  {
    var u := Party(inp, s, student);
    PartyIsOneUnit(inp, s, student);
    PartyClosed(inp, s, student);
    SettleKeeps(inp, s, u);
    PartySize(inp, s, student);
    LeadSettled(inp, s, u);
  }

  lemma LeadSettled(inp: Inputs, s: State, u: Unit)
    requires |u| >= 1
    ensures var s' := Settle(inp, s, u).0; u[0].userId in s'.placed || NoRoomFor(inp, s', u[0], |u|)
  {
    if u[0].userId !in Settle(inp, s, u).0.placed {
      RefusedHasNoRoom(inp, s, u);
    }
  }

  lemma ServeGrows(inp: Inputs, s: State, order: seq<Student>)
    requires WellFormed(inp) && Sound(inp, s) && Counted(inp, s) && Together(inp, s)
    requires |order| > 0 && forall m :: m in order ==> m in inp.students
    ensures Grows(Serve(inp, s, order[..|order| - 1]).0, Serve(inp, s, order).0)
  {
    if order[|order| - 1].userId !in Serve(inp, s, order[..|order| - 1]).0.placed {
      ServedOnce(inp, s, order);
    }
  }

  /** The student is seated, or no valid room has the beds for the student's unit. */
  ghost predicate SeatedOrRefused(inp: Inputs, s: State, m: Student) {
    m.userId in s.placed || forall n: nat :: n == UnitSize(inp.roommates, inp.students, m) ==> NoRoomFor(inp, s, m, n)
  }

  lemma StaysSo(inp: Inputs, s: State, s': State, m: Student)
    requires SeatedOrRefused(inp, s, m) && Grows(s, s')
    ensures SeatedOrRefused(inp, s', m)
  {
    if m.userId !in s.placed {
      NoRoomLater(inp, s, s', m, UnitSize(inp.roommates, inp.students, m));
    }
  }

  lemma LastIsServed(inp: Inputs, s: State, order: seq<Student>)
    requires WellFormed(inp) && Sound(inp, s) && Counted(inp, s) && Together(inp, s)
    requires |order| > 0 && forall m :: m in order ==> m in inp.students
    ensures SeatedOrRefused(inp, Serve(inp, s, order).0, order[|order| - 1])
  {
    if order[|order| - 1].userId !in Serve(inp, s, order[..|order| - 1]).0.placed {
      ServedOnce(inp, s, order);
    }
  }

  lemma ServedOnce(inp: Inputs, s: State, order: seq<Student>)
    requires WellFormed(inp) && Sound(inp, s) && Counted(inp, s) && Together(inp, s)
    requires |order| > 0 && forall m :: m in order ==> m in inp.students
    requires order[|order| - 1].userId !in Serve(inp, s, order[..|order| - 1]).0.placed
    ensures var student, s' := order[|order| - 1], Serve(inp, s, order).0;
            && Grows(Serve(inp, s, order[..|order| - 1]).0, s')
            && SeatedOrRefused(inp, s', student)
  {
    var n := |order| - 1;
    assert order[n] in order && forall m :: m in order[..n] ==> m in order;
    ServeKeeps(inp, s, order[..n]);
    ServeStep(inp, s, order);
    PartySettled(inp, Serve(inp, s, order[..n]).0, order[n]);
  }

  /** A student served is placed, or every room valid for the student lacks the beds its unit needs. */
  lemma {:induction false} ServedOrRefused(inp: Inputs, s: State, order: seq<Student>, k: nat)
    requires WellFormed(inp) && Sound(inp, s) && Counted(inp, s) && Together(inp, s)
    requires forall m :: m in order ==> m in inp.students
    requires k < |order|
    ensures SeatedOrRefused(inp, Serve(inp, s, order).0, order[k])
  {
    var n := |order| - 1;
    if k < n {
      assert forall m :: m in order[..n] ==> m in order;
      ServedOrRefused(inp, s, order[..n], k);
      StaysServed(inp, s, order, k);
    } else {
      LastIsServed(inp, s, order);
    }
  }

  lemma StaysServed(inp: Inputs, s: State, order: seq<Student>, k: nat)
    requires WellFormed(inp) && Sound(inp, s) && Counted(inp, s) && Together(inp, s)
    requires (forall m :: m in order ==> m in inp.students) && k < |order|
    requires SeatedOrRefused(inp, Serve(inp, s, order[..|order| - 1]).0, order[k])
    ensures SeatedOrRefused(inp, Serve(inp, s, order).0, order[k])
  {
    ServeGrows(inp, s, order);
    StaysSo(inp, Serve(inp, s, order[..|order| - 1]).0, Serve(inp, s, order).0, order[k]);
  }
}
