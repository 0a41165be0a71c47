/**
 What the engine makes of a solution the solver hands over: the results, and
 the state they describe, built by seating the students of the decoded
 allocation one by one on the initial state.
 */
module SolverResults {
  import opened Common
  import opened AllocationModel
  import opened InitialState
  import opened SolverModel

  // ---------- From the solution to results ----------

  const NOT_CHOSEN := "No valid capacity or configuration found by solver"

  /** The first room of the list whose variable is 1 for the student. */
  function FirstOne(x: Choice, id: StudentId, rooms: seq<Room>): Option<RoomId> {
    if rooms == [] then None
    else if (id, rooms[0].id) in x then Some(rooms[0].id)
    else FirstOne(x, id, rooms[1..])
  }

  function ResultFor(inp: Inputs, x: Choice, m: Student): Result {
    var room := FirstOne(x, m.userId, ValidRooms(inp, m));
    Result(m.userId, room, None, if room.Some? then None else Some(NOT_CHOSEN))
  }

  /** Reads the solver's values, student by student. */
  method ReadSolution(inp: Inputs, x: Choice) returns (results: seq<Result>)
    ensures |results| == |inp.students| && forall i :: 0 <= i < |results| ==> results[i] == ResultFor(inp, x, inp.students[i])
  {
    results := [];
    var i := 0;
    while i < |inp.students|
      invariant 0 <= i <= |inp.students| && |results| == i
      invariant forall j :: 0 <= j < i ==> results[j] == ResultFor(inp, x, inp.students[j])
    {
      var m := inp.students[i];
      var rooms := ValidRooms(inp, m);
      var chosen: Option<RoomId> := None;
      var k := 0;
      while k < |rooms| && chosen.None?
        invariant 0 <= k <= |rooms|
        invariant chosen.None? ==> FirstOne(x, m.userId, rooms) == FirstOne(x, m.userId, rooms[k..])
        invariant chosen.Some? ==> FirstOne(x, m.userId, rooms) == chosen
      {
        if (m.userId, rooms[k].id) in x {
          chosen := Some(rooms[k].id);
        }
        assert rooms[k..][1..] == rooms[k + 1..];
        k := k + 1;
      }
      results := results + [Result(m.userId, chosen, None, if chosen.Some? then None else Some(NOT_CHOSEN))];
      i := i + 1;
    }
  }

  lemma {:induction false} FirstOneFinds(x: Choice, id: StudentId, rooms: seq<Room>)
    ensures FirstOne(x, id, rooms).None? <==> forall r :: r in rooms ==> (id, r.id) !in x
    ensures FirstOne(x, id, rooms).Some? ==> (id, FirstOne(x, id, rooms).value) in x && id in Housed(x)
  {
    if rooms != [] {
      assert rooms == [rooms[0]] + rooms[1..];
      FirstOneFinds(x, id, rooms[1..]);
      ChosenIsHoused(x, id, rooms[0].id);
      assert rooms[0] in rooms;
    }
  }

  lemma ReadsChosen(inp: Inputs, x: Choice, m: Student)
    requires WellFormed(inp) && Feasible(inp, x) && m in inp.students
    ensures forall r :: ResultFor(inp, x, m).roomId == Some(r) <==> (m.userId, r) in x
  {
    var rooms := ValidRooms(inp, m);
    FirstOneFinds(x, m.userId, rooms);
    forall id | (m.userId, id) in x
      ensures ResultFor(inp, x, m).roomId == Some(id)
    {
      var s, r :| s in inp.students && r in inp.rooms && s.userId == m.userId && r.id == id && ValidRoom(inp, s, r);
      StudentById(inp, s, m);
      assert r in rooms;
      assert (m.userId, FirstOne(x, m.userId, rooms).value) == (m.userId, id);
    }
  }

  /** Reading a solution gives each student the room of the decoded allocation. */
  lemma ReadingIsDecoding(inp: Inputs, x: Choice, m: Student)
    requires WellFormed(inp) && Feasible(inp, x) && m in inp.students
    ensures ResultFor(inp, x, m).roomId == if m.userId in Decode(x) then Some(Decode(x)[m.userId]) else None
    ensures forall r :: ResultFor(inp, x, m).roomId == Some(r) <==> (m.userId, r) in x
    ensures ResultFor(inp, x, m).studentId == m.userId && ResultFor(inp, x, m).groupId.None?
    ensures ResultFor(inp, x, m).reason
            == if exists r :: (m.userId, r) in x then None else Some("No valid capacity or configuration found by solver")
  {
    ReadsChosen(inp, x, m);
    var rooms := ValidRooms(inp, m);
    FirstOneFinds(x, m.userId, rooms);
    if m.userId in Housed(x) {
      var v := (m.userId, RoomIn(x, m.userId));
      var s, r :| s in inp.students && r in inp.rooms && s.userId == v.0 && r.id == v.1 && ValidRoom(inp, s, r);
      StudentById(inp, s, m);
      assert r in rooms;
    }
  }

  // ---------- From the allocation to a state ----------

  /** The first n students seated one by one in the rooms the allocation gives them. */
  function SeatFirst(inp: Inputs, a: map<StudentId, RoomId>, n: nat): State
    requires n <= |inp.students|
  {
    if n == 0 then Initial(inp)
    else
      var before := SeatFirst(inp, a, n - 1);
      var id := inp.students[n - 1].userId;
      if id in a then Seat(before, [id], a[id]) else before
  }

  /** After n students: the rest is unplaced, and each room holds its locked students and its roomers among the first n. */
  ghost predicate SeatedSoFar(inp: Inputs, a: map<StudentId, RoomId>, n: nat, s: State)
    requires n <= |inp.students|
  {
    Sound(inp, s) && HoldsRoomers(inp, a, n, s) && PlacedFirst(inp, a, n, s)
  }

  ghost predicate HoldsRoomers(inp: Inputs, a: map<StudentId, RoomId>, n: nat, s: State)
    requires n <= |inp.students|
  {
    forall r :: Occ(s, r) == Occ(Initial(inp), r) + Total(inp.students[..n], Chosen(AsChoice(a), r))
  }

  ghost predicate PlacedFirst(inp: Inputs, a: map<StudentId, RoomId>, n: nat, s: State)
    requires n <= |inp.students|
  {
    forall id :: id in Cohort(inp) ==>
      (id in s.placed <==> id in a && id in IdSet(inp.students[..n])) && (id in s.placed ==> s.placed[id] == a[id])
  }

  lemma CountOneMore(inp: Inputs, a: map<StudentId, RoomId>, n: nat, r: RoomId)
    requires 0 < n <= |inp.students|
    ensures var id := inp.students[n - 1].userId;
            Total(inp.students[..n], Chosen(AsChoice(a), r))
            == Total(inp.students[..n - 1], Chosen(AsChoice(a), r)) + (if id in a && a[id] == r then 1 else 0)
  {
    var id := inp.students[n - 1].userId;
    assert inp.students[..n][..n - 1] == inp.students[..n - 1];
    assert (id, r) in AsChoice(a) <==> id in a && a[id] == r;
  }

  lemma {:induction false} TotalGrows(students: seq<Student>, n: nat, x: Choice, room: RoomId)
    requires n <= |students|
    ensures 0 <= Total(students[..n], Chosen(x, room)) <= Total(students, Chosen(x, room))
  {
    if n < |students| {
      assert students[..|students| - 1][..n] == students[..n];
      TotalGrows(students[..|students| - 1], n, x, room);
    } else {
      assert students[..n] == students;
      TotalNotNegative(students, x, room);
    }
  }

  lemma {:induction false} TotalNotNegative(students: seq<Student>, x: Choice, room: RoomId)
    ensures 0 <= Total(students, Chosen(x, room))
  {
    if students != [] {
      TotalNotNegative(students[..|students| - 1], x, room);
    }
  }

  lemma PrefixIds(inp: Inputs, n: nat)
    requires WellFormed(inp) && 0 < n <= |inp.students|
    ensures IdSet(inp.students[..n]) == IdSet(inp.students[..n - 1]) + {inp.students[n - 1].userId}
    ensures inp.students[n - 1].userId !in IdSet(inp.students[..n - 1]) && inp.students[n - 1].userId in Cohort(inp)
  {
  }

  /** The next student's room has a bed left. */
  lemma RoomForNext(inp: Inputs, a: map<StudentId, RoomId>, n: nat, s: State, room: Room)
    requires WellFormed(inp) && ValidAllocation(inp, a) && 0 < n <= |inp.students|
    requires SeatedSoFar(inp, a, n - 1, s) && room in inp.rooms
    requires inp.students[n - 1].userId in a && a[inp.students[n - 1].userId] == room.id
    ensures Occ(s, room.id) + 1 <= room.capacity
  {
    var x := AsChoice(a);
    var k :| 0 <= k < |inp.rooms| && inp.rooms[k] == room;
    CountOneMore(inp, a, n, room.id);
    TotalGrows(inp.students, n, x, room.id);
    CountRoomers(inp.students, x, room.id);
    ChosenAreRoomers(inp, a, room.id);
  }

  lemma HoldsNext(inp: Inputs, a: map<StudentId, RoomId>, n: nat, s: State)
    requires 0 < n <= |inp.students| && HoldsRoomers(inp, a, n - 1, s)
    ensures var id := inp.students[n - 1].userId;
            && (id in a ==> HoldsRoomers(inp, a, n, Seat(s, [id], a[id])))
            && (id !in a ==> HoldsRoomers(inp, a, n, s))
  {
    var id := inp.students[n - 1].userId;
    forall r
      ensures Total(inp.students[..n], Chosen(AsChoice(a), r))
              == Total(inp.students[..n - 1], Chosen(AsChoice(a), r)) + (if id in a && a[id] == r then 1 else 0)
    {
      CountOneMore(inp, a, n, r);
    }
    if id in a {
      SeatOcc(s, [id], a[id]);
    }
  }

  lemma PlacedNext(inp: Inputs, a: map<StudentId, RoomId>, n: nat, s: State)
    requires WellFormed(inp) && 0 < n <= |inp.students| && PlacedFirst(inp, a, n - 1, s)
    ensures var id := inp.students[n - 1].userId;
            && id !in s.placed
            && (id in a ==> PlacedFirst(inp, a, n, Seat(s, [id], a[id])))
            && (id !in a ==> PlacedFirst(inp, a, n, s))
  {
    PrefixIds(inp, n);
  }

  lemma SeatedNext(inp: Inputs, a: map<StudentId, RoomId>, n: nat, s: State, room: Room)
    requires WellFormed(inp) && ValidAllocation(inp, a) && 0 < n <= |inp.students|
    requires SeatedSoFar(inp, a, n - 1, s) && room in inp.rooms
    requires inp.students[n - 1].userId in a && a[inp.students[n - 1].userId] == room.id
    ensures SeatedSoFar(inp, a, n, Seat(s, [inp.students[n - 1].userId], room.id))
  {
    var id := inp.students[n - 1].userId;
    RoomForNext(inp, a, n, s, room);
    PlacedNext(inp, a, n, s);
    HoldsNext(inp, a, n, s);
    SeatKeepsSound(inp, s, [id], room);
  }

  lemma SkippedNext(inp: Inputs, a: map<StudentId, RoomId>, n: nat, s: State)
    requires WellFormed(inp) && 0 < n <= |inp.students| && SeatedSoFar(inp, a, n - 1, s)
    requires inp.students[n - 1].userId !in a
    ensures SeatedSoFar(inp, a, n, s)
  {
    PlacedNext(inp, a, n, s);
    HoldsNext(inp, a, n, s);
  }

  lemma {:induction false} SeatingGoesThrough(inp: Inputs, a: map<StudentId, RoomId>, n: nat)
    requires WellFormed(inp) && ValidAllocation(inp, a) && n <= |inp.students|
    ensures SeatedSoFar(inp, a, n, SeatFirst(inp, a, n))
  {
    if n == 0 {
      InitialSound(inp);
      var none: seq<Student> := [];
      assert inp.students[..0] == none;
    } else {
      SeatingGoesThrough(inp, a, n - 1);
      var id := inp.students[n - 1].userId;
      var s := SeatFirst(inp, a, n - 1);
      if id in a {
        assert IsVariable(inp, (id, a[id]));
        var r :| r in inp.rooms && r.id == a[id];
        SeatedNext(inp, a, n, s, r);
      } else {
        SkippedNext(inp, a, n, s);
      }
    }
  }

  /** A valid allocation is a state the engine could be in: capacity, agreement, locks, and pairs together. */
  lemma AllocationIsSafe(inp: Inputs, a: map<StudentId, RoomId>)
    requires WellFormed(inp) && ValidAllocation(inp, a)
    ensures var s := SeatFirst(inp, a, |inp.students|);
            && Sound(inp, s) && Together(inp, s)
            && forall id :: id in Cohort(inp) ==> (id in s.placed <==> id in a) && (id in a ==> s.placed[id] == a[id])
  {
    var s := SeatFirst(inp, a, |inp.students|);
    SeatingGoesThrough(inp, a, |inp.students|);
    assert inp.students[..|inp.students|] == inp.students;
    forall b | CohortPair(inp, b)
      ensures SameSeat(inp, s, b)
    {
      FateIsSeat(inp, a, s, b);
    }
  }

  lemma FateIsSeat(inp: Inputs, a: map<StudentId, RoomId>, s: State, b: StudentId)
    requires ValidAllocation(inp, a) && CohortPair(inp, b)
    requires forall id :: id in Cohort(inp) ==> (id in s.placed <==> id in a) && (id in a ==> s.placed[id] == a[id])
    ensures SameSeat(inp, s, b)
  {
    assert SameFate(a, b, inp.roommates[b]);
  }
}
