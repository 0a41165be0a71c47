/**
 The CP-SAT mode: the constraint model, and its solutions as allocations.
 */
module SolverModel {
  import opened Common
  import opened AllocationModel
  import opened AtomicUnits
  import opened InitialState

  /** A 0/1 assignment: the (student, room) variables that are 1. */
  type Choice = set<(StudentId, RoomId)>

  // ---------- Variables and constraints ----------

  predicate IsVariable(inp: Inputs, v: (StudentId, RoomId)) {
    exists s, r :: s in inp.students && r in inp.rooms && s.userId == v.0 && r.id == v.1 && ValidRoom(inp, s, r)
  }

  /** A: at most one room per student. */
  ghost predicate OneRoomEach(x: Choice) {
    forall v, w :: v in x && w in x && v.0 == w.0 ==> v == w
  }

  function Chosen(x: Choice, room: RoomId): Student -> int {
    (m: Student) => if (m.userId, room) in x then 1 else 0
  }

  function Remaining(inp: Inputs, room: Room): nat {
    var occupied: int := Occ(Initial(inp), room.id);
    if room.capacity > occupied then room.capacity - occupied else 0
  }

  /** B: the chosen students of an available room fit into its remaining beds. */
  ghost predicate RoomsRespected(inp: Inputs, x: Choice) {
    forall k :: 0 <= k < |inp.rooms| && inp.rooms[k].status.Available? ==>
      Total(inp.students, Chosen(x, inp.rooms[k].id)) <= Remaining(inp, inp.rooms[k])
  }

  /** C for one pair: equal variables in shared valid rooms, zero elsewhere. */
  ghost predicate PairRespected(inp: Inputs, x: Choice, u: Unit)
    requires |u| == 2
  {
    forall k :: 0 <= k < |inp.rooms| ==>
      var r := inp.rooms[k];
      if ValidRoom(inp, u[0], r) && ValidRoom(inp, u[1], r)
      then (u[0].userId, r.id) in x <==> (u[1].userId, r.id) in x
      else (u[0].userId, r.id) !in x && (u[1].userId, r.id) !in x
  }

  ghost predicate PairsRespected(inp: Inputs, x: Choice) {
    forall u :: u in Units(inp.roommates, inp.students) && |u| == 2 ==> PairRespected(inp, x, u)
  }

  ghost predicate Feasible(inp: Inputs, x: Choice) {
    && (forall v :: v in x ==> IsVariable(inp, v))
    && OneRoomEach(x) && RoomsRespected(inp, x) && PairsRespected(inp, x)
  }

  // ---------- Valid allocations ----------

  function Roomers(a: map<StudentId, RoomId>, room: RoomId): set<StudentId> {
    set id | id in a && a[id] == room
  }

  /** One valid room each, locked occupants and newcomers within capacity, accepted pairs together. */
  ghost predicate ValidAllocation(inp: Inputs, a: map<StudentId, RoomId>) {
    && (forall id :: id in a ==> IsVariable(inp, (id, a[id])))
    && (forall k :: 0 <= k < |inp.rooms| ==>
          Occ(Initial(inp), inp.rooms[k].id) + |Roomers(a, inp.rooms[k].id)| <= inp.rooms[k].capacity)
    && (forall b :: b in inp.roommates && b in Cohort(inp) && inp.roommates[b] in Cohort(inp) ==> SameFate(a, b, inp.roommates[b]))
  }

  /** Both in one room, or both without a room. */
  ghost predicate SameFate(a: map<StudentId, RoomId>, b: StudentId, c: StudentId) {
    (b in a <==> c in a) && (b in a && c in a ==> a[b] == a[c])
  }

  function AsChoice(a: map<StudentId, RoomId>): Choice {
    set id | id in a :: (id, a[id])
  }

  function Housed(x: Choice): set<StudentId> {
    set v | v in x :: v.0
  }

  lemma ChosenIsHoused(x: Choice, id: StudentId, room: RoomId)
    ensures (id, room) in x ==> id in Housed(x)
  {
  }

  ghost function RoomIn(x: Choice, id: StudentId): RoomId
    requires id in Housed(x)
    ensures (id, RoomIn(x, id)) in x
  {
    var v :| v in x && v.0 == id;
    v.1
  }

  ghost function Decode(x: Choice): map<StudentId, RoomId> {
    map id | id in Housed(x) :: RoomIn(x, id)
  }

  lemma DecodeRoundTrip(x: Choice, a: map<StudentId, RoomId>)
    ensures Decode(AsChoice(a)) == a
    ensures OneRoomEach(x) <==> AsChoice(Decode(x)) == x
  {
    forall id | id in a
      ensures id in Housed(AsChoice(a))
    {
      assert (id, a[id]) in AsChoice(a);
    }
    forall v | v in AsChoice(Decode(x))
      ensures v in x
    {
      assert v.0 in Housed(x) && v.1 == RoomIn(x, v.0);
    }
    if OneRoomEach(x) {
      forall v | v in x
        ensures v in AsChoice(Decode(x))
      {
        var w := (v.0, RoomIn(x, v.0));
        assert v.0 in Housed(x) && w in x;
        assert w == v && Decode(x)[v.0] == v.1;
        assert (v.0, Decode(x)[v.0]) in AsChoice(Decode(x));
      }
    }
    if AsChoice(Decode(x)) == x {
      forall v, w | v in x && w in x && v.0 == w.0
        ensures v == w
      {
        assert v in AsChoice(Decode(x)) && w in AsChoice(Decode(x));
      }
    }
  }

  lemma IdsWithoutLast(students: seq<Student>)
    requires Unique(Ids(students)) && |students| > 0
    ensures var n := |students| - 1;
            && Unique(Ids(students[..n]))
            && IdSet(students) == IdSet(students[..n]) + {students[n].userId}
            && students[n].userId !in IdSet(students[..n])
  {
  }

  /** The members of ids chosen for the room. */
  function ChosenOf(ids: set<StudentId>, x: Choice, room: RoomId): set<StudentId> {
    set id | id in ids && (id, room) in x
  }

  /** Counting the chosen students of a room along the student list counts the roomers. */
  lemma {:induction false} CountRoomers(students: seq<Student>, x: Choice, room: RoomId)
    requires Unique(Ids(students))
    ensures Total(students, Chosen(x, room)) == |ChosenOf(IdSet(students), x, room)|
  {
    if students != [] {
      var n := |students| - 1;
      var last := students[n].userId;
      IdsWithoutLast(students);
      CountRoomers(students[..n], x, room);
      ChosenOfOneMore(IdSet(students[..n]), last, x, room);
    }
  }

  lemma ChosenOfOneMore(ids: set<StudentId>, id: StudentId, x: Choice, room: RoomId)
    requires id !in ids
    ensures |ChosenOf(ids + {id}, x, room)| == |ChosenOf(ids, x, room)| + (if (id, room) in x then 1 else 0)
  {
    var before := ChosenOf(ids, x, room);
    if (id, room) in x {
      assert ChosenOf(ids + {id}, x, room) == before + {id};
    } else {
      assert ChosenOf(ids + {id}, x, room) == before;
    }
  }

  // ---------- The solutions are the valid allocations ----------

  lemma ChosenAreRoomers(inp: Inputs, a: map<StudentId, RoomId>, room: RoomId)
    requires a.Keys <= Cohort(inp)
    ensures ChosenOf(Cohort(inp), AsChoice(a), room) == Roomers(a, room)
  {
  }

  /** Constraint B of one room, read as capacity. */
  lemma RoomConstraintIff(inp: Inputs, a: map<StudentId, RoomId>, k: nat)
    requires WellFormed(inp) && a.Keys <= Cohort(inp) && k < |inp.rooms|
    ensures Total(inp.students, Chosen(AsChoice(a), inp.rooms[k].id)) <= Remaining(inp, inp.rooms[k])
            <==> Occ(Initial(inp), inp.rooms[k].id) + |Roomers(a, inp.rooms[k].id)| <= inp.rooms[k].capacity
  {
    InitialSound(inp);
    CountRoomers(inp.students, AsChoice(a), inp.rooms[k].id);
    ChosenAreRoomers(inp, a, inp.rooms[k].id);
  }

  /** Nobody can be chosen for a room that is closed. */
  lemma ClosedRoomEmpty(inp: Inputs, a: map<StudentId, RoomId>, k: nat)
    requires WellFormed(inp) && k < |inp.rooms| && !inp.rooms[k].status.Available?
    requires forall id :: id in a ==> IsVariable(inp, (id, a[id]))
    ensures Roomers(a, inp.rooms[k].id) == {}
  {
  }

  lemma RoomsRespectedIff(inp: Inputs, a: map<StudentId, RoomId>)
    requires WellFormed(inp) && forall id :: id in a ==> IsVariable(inp, (id, a[id]))
    ensures RoomsRespected(inp, AsChoice(a)) <==>
            forall k :: 0 <= k < |inp.rooms| ==>
              Occ(Initial(inp), inp.rooms[k].id) + |Roomers(a, inp.rooms[k].id)| <= inp.rooms[k].capacity
  {
    assert a.Keys <= Cohort(inp);
    InitialSound(inp);
    forall k | 0 <= k < |inp.rooms|
      ensures Total(inp.students, Chosen(AsChoice(a), inp.rooms[k].id)) <= Remaining(inp, inp.rooms[k])
              <==> Occ(Initial(inp), inp.rooms[k].id) + |Roomers(a, inp.rooms[k].id)| <= inp.rooms[k].capacity
      ensures !inp.rooms[k].status.Available? ==>
                Occ(Initial(inp), inp.rooms[k].id) + |Roomers(a, inp.rooms[k].id)| <= inp.rooms[k].capacity
    {
      RoomConstraintIff(inp, a, k);
      if !inp.rooms[k].status.Available? {
        ClosedRoomEmpty(inp, a, k);
      }
    }
  }

  lemma PairRespectedIff(inp: Inputs, a: map<StudentId, RoomId>, u: Unit)
    requires WellFormed(inp) && forall id :: id in a ==> IsVariable(inp, (id, a[id]))
    requires |u| == 2 && u[0] in inp.students && u[1] in inp.students
    ensures PairRespected(inp, AsChoice(a), u) <==> SameFate(a, u[0].userId, u[1].userId)
  {
  }

  lemma StudentById(inp: Inputs, a: Student, b: Student)
    requires WellFormed(inp) && a in inp.students && b in inp.students && a.userId == b.userId
    ensures a == b
  {
  }

  lemma PairsRespectedIff(inp: Inputs, a: map<StudentId, RoomId>)
    requires WellFormed(inp) && forall id :: id in a ==> IsVariable(inp, (id, a[id]))
    ensures PairsRespected(inp, AsChoice(a)) <==>
            forall b :: b in inp.roommates && b in Cohort(inp) && inp.roommates[b] in Cohort(inp) ==>
              SameFate(a, b, inp.roommates[b])
  {
    PartitionOfUnits(inp.roommates, inp.students);
    if PairsRespected(inp, AsChoice(a)) {
      forall b | b in inp.roommates && b in Cohort(inp) && inp.roommates[b] in Cohort(inp)
        ensures SameFate(a, b, inp.roommates[b])
      {
        var u := PairUnit(inp.roommates, inp.students, b);
        PairRespectedIff(inp, a, u);
      }
    }
    if forall b :: b in inp.roommates && b in Cohort(inp) && inp.roommates[b] in Cohort(inp) ==> SameFate(a, b, inp.roommates[b]) {
      forall u | u in Units(inp.roommates, inp.students) && |u| == 2
        ensures PairRespected(inp, AsChoice(a), u)
      {
        UnitFate(inp, a, u);
      }
    }
  }

  lemma UnitFate(inp: Inputs, a: map<StudentId, RoomId>, u: Unit)
    requires WellFormed(inp) && forall id :: id in a ==> IsVariable(inp, (id, a[id]))
    requires ProperUnit(inp.roommates, inp.students, u) && |u| == 2
    requires forall b :: b in inp.roommates && b in Cohort(inp) && inp.roommates[b] in Cohort(inp) ==> SameFate(a, b, inp.roommates[b])
    ensures PairRespected(inp, AsChoice(a), u)
  {
    assert u[0] in u && u[1] in u;
    assert SameFate(a, u[0].userId, u[1].userId);
    PairRespectedIff(inp, a, u);
  }

  lemma VariablesOfAllocation(inp: Inputs, a: map<StudentId, RoomId>)
    ensures OneRoomEach(AsChoice(a))
    ensures (forall v :: v in AsChoice(a) ==> IsVariable(inp, v)) <==> forall id :: id in a ==> IsVariable(inp, (id, a[id]))
  {
  }

  lemma FeasibleOfAllocation(inp: Inputs, a: map<StudentId, RoomId>)
    requires WellFormed(inp)
    ensures Feasible(inp, AsChoice(a)) <==> ValidAllocation(inp, a)
  {
    VariablesOfAllocation(inp, a);
    if forall id :: id in a ==> IsVariable(inp, (id, a[id])) {
      RoomsRespectedIff(inp, a);
      PairsRespectedIff(inp, a);
    }
  }

  /**
   The 0/1 solutions of the constraints are exactly the valid allocations,
   written as choices; decoding gives the allocation back.
   */
  lemma SolutionsAreAllocations(inp: Inputs, x: Choice)
    requires WellFormed(inp)
    ensures Feasible(inp, x) <==> exists a :: ValidAllocation(inp, a) && AsChoice(a) == x
    ensures Feasible(inp, x) ==> ValidAllocation(inp, Decode(x)) && AsChoice(Decode(x)) == x
    ensures forall a :: AsChoice(a) == x ==> Decode(x) == a
  {
    forall a | AsChoice(a) == x
      ensures Decode(x) == a && (Feasible(inp, x) <==> ValidAllocation(inp, a))
    {
      DecodeRoundTrip(x, a);
      FeasibleOfAllocation(inp, a);
    }
    if Feasible(inp, x) {
      DecodeRoundTrip(x, Decode(x));
    }
  }

  /** All-zero is a solution, so the model is never infeasible. */
  lemma NothingChosenIsFeasible(inp: Inputs)
    requires WellFormed(inp)
    ensures Feasible(inp, {})
  {
    var none: map<StudentId, RoomId> := map[];
    InitialSound(inp);
    forall k | 0 <= k < |inp.rooms|
      ensures Occ(Initial(inp), inp.rooms[k].id) + |Roomers(none, inp.rooms[k].id)| <= inp.rooms[k].capacity
    {
      assert Roomers(none, inp.rooms[k].id) == {};
    }
    FeasibleOfAllocation(inp, none);
    assert AsChoice(none) == {};
  }
}
