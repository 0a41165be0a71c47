/** What an optimal solution owes a student's preference list and the rule priorities. */
module SolverPreferences {
  import opened Common
  import opened Rules
  import opened AllocationModel
  import opened SolverModel
  import opened SolverObjective
  import opened SolverSingles
  import InitialState

  // ---------- Moving a student, or a pair, to another room ----------

  lemma RoomersMoved(a: Allocation, id: StudentId, room: RoomId)
    requires id in a && a[id] != room
    ensures |Roomers(a[id := room], room)| == |Roomers(a, room)| + 1
    ensures forall r :: r != room ==> |Roomers(a[id := room], r)| <= |Roomers(a, r)|
  {
    assert Roomers(a[id := room], room) == Roomers(a, room) + {id};
    forall r | r != room
      ensures |Roomers(a[id := room], r)| <= |Roomers(a, r)|
    {
      SubsetSize(Roomers(a[id := room], r), Roomers(a, r));
    }
  }

  /** Room q has n beds more than the locked occupants and those the allocation puts there need. */
  ghost predicate SpareBeds(inp: Inputs, a: Allocation, q: Room, n: nat) {
    Occ(InitialState.Initial(inp), q.id) + |Roomers(a, q.id)| + n <= q.capacity
  }

  /** No other room is fuller after the move. */
  lemma RoomsAfterMove(inp: Inputs, a: Allocation, id: StudentId, q: Room, n: nat)
    requires WellFormed(inp) && q in inp.rooms && id in a && a[id] != q.id && n > 0 && SpareBeds(inp, a, q, n)
    requires forall k :: 0 <= k < |inp.rooms| ==> SpareBeds(inp, a, inp.rooms[k], 0)
    ensures SpareBeds(inp, a[id := q.id], q, n - 1)
    ensures forall k :: 0 <= k < |inp.rooms| ==> SpareBeds(inp, a[id := q.id], inp.rooms[k], 0)
  {
    RoomersMoved(a, id, q.id);
    forall k | 0 <= k < |inp.rooms|
      ensures SpareBeds(inp, a[id := q.id], inp.rooms[k], 0)
    {
      assert SpareBeds(inp, a, inp.rooms[k], 0);
      if inp.rooms[k].id == q.id {
        RoomById(inp, inp.rooms[k], q);
      }
    }
  }

  lemma RoomsOf(inp: Inputs, a: Allocation)
    requires ValidAllocation(inp, a)
    ensures forall k :: 0 <= k < |inp.rooms| ==> SpareBeds(inp, a, inp.rooms[k], 0)
  {
  }

  ghost predicate AllVariables(inp: Inputs, a: Allocation) {
    forall c :: c in a ==> IsVariable(inp, (c, a[c]))
  }

  lemma VariablesAfterMove(inp: Inputs, a: Allocation, m: Student, q: Room)
    requires m in inp.students && q in inp.rooms && ValidRoom(inp, m, q)
    requires AllVariables(inp, a)
    ensures AllVariables(inp, a[m.userId := q.id])
  {
    assert IsVariable(inp, (m.userId, q.id));
  }

  /** What the allocation gives both of every accepted pair. */
  ghost predicate FatesShared(inp: Inputs, a: Allocation) {
    forall c :: CohortPair(inp, c) ==> SameFate(a, c, inp.roommates[c])
  }

  lemma FatesAfterOne(inp: Inputs, a: Allocation, id: StudentId, room: RoomId)
    requires IsMatching(inp.roommates) && FatesShared(inp, a) && !CohortPair(inp, id) && id in Cohort(inp)
    ensures FatesShared(inp, a[id := room])
  {
    forall c | CohortPair(inp, c)
      ensures SameFate(a[id := room], c, inp.roommates[c])
    {
      assert SameFate(a, c, inp.roommates[c]);
    }
  }

  lemma FatesAfterPair(inp: Inputs, a: Allocation, id: StudentId, room: RoomId)
    requires IsMatching(inp.roommates) && FatesShared(inp, a) && id in inp.roommates
    ensures FatesShared(inp, a[id := room][inp.roommates[id] := room])
  {
    var b := a[id := room][inp.roommates[id] := room];
    forall c | CohortPair(inp, c)
      ensures SameFate(b, c, inp.roommates[c])
    {
      assert SameFate(a, c, inp.roommates[c]);
    }
  }

  lemma Together(inp: Inputs, a: Allocation)
    requires FatesShared(inp, a) && AllVariables(inp, a)
    requires forall k :: 0 <= k < |inp.rooms| ==> SpareBeds(inp, a, inp.rooms[k], 0)
    ensures ValidAllocation(inp, a)
  {
    forall c | c in inp.roommates && c in Cohort(inp) && inp.roommates[c] in Cohort(inp)
      ensures SameFate(a, c, inp.roommates[c])
    {
      assert CohortPair(inp, c);
    }
    forall k | 0 <= k < |inp.rooms|
      ensures Occ(InitialState.Initial(inp), inp.rooms[k].id) + |Roomers(a, inp.rooms[k].id)| <= inp.rooms[k].capacity
    {
      assert SpareBeds(inp, a, inp.rooms[k], 0);
    }
  }

  lemma OneMoves(inp: Inputs, a: Allocation, m: Student, q: Room)
    requires WellFormed(inp) && ValidAllocation(inp, a) && m in inp.students && q in inp.rooms
    requires !CohortPair(inp, m.userId) && m.userId in a && a[m.userId] != q.id && ValidRoom(inp, m, q) && SpareBeds(inp, a, q, 1)
    ensures ValidAllocation(inp, a[m.userId := q.id])
  {
    RoomsOf(inp, a);
    RoomsAfterMove(inp, a, m.userId, q, 1);
    VariablesAfterMove(inp, a, m, q);
    FatesAfterOne(inp, a, m.userId, q.id);
    Together(inp, a[m.userId := q.id]);
  }

  lemma PairMoves(inp: Inputs, a: Allocation, m: Student, p: Student, q: Room)
    requires WellFormed(inp) && ValidAllocation(inp, a) && m in inp.students && p in inp.students && q in inp.rooms
    requires m.userId in inp.roommates && inp.roommates[m.userId] == p.userId
    requires m.userId in a && a[m.userId] != q.id && ValidRoom(inp, m, q) && ValidRoom(inp, p, q) && SpareBeds(inp, a, q, 2)
    ensures m.userId != p.userId && p.userId in a && a[p.userId] == a[m.userId]
    ensures ValidAllocation(inp, a[m.userId := q.id][p.userId := q.id])
  {
    RoomsOf(inp, a);
    assert SameFate(a, m.userId, p.userId);
    RoomsAfterMove(inp, a, m.userId, q, 2);
    RoomsAfterMove(inp, a[m.userId := q.id], p.userId, q, 1);
    VariablesAfterMove(inp, a, m, q);
    VariablesAfterMove(inp, a[m.userId := q.id], p, q);
    FatesAfterPair(inp, a, m.userId, q.id);
    Together(inp, a[m.userId := q.id][p.userId := q.id]);
  }

  // ---------- What a move is worth ----------

  /** Nobody's terms change but those of students k and j. */
  ghost predicate SharesElsewhere(inp: Inputs, a: Allocation, b: Allocation, k: nat, j: nat) {
    forall i :: 0 <= i < |inp.students| && i != k && i != j ==>
      Share(inp, AsChoice(a))(inp.students[i]) == Share(inp, AsChoice(b))(inp.students[i])
  }

  lemma OthersStay(inp: Inputs, a: Allocation, b: Allocation, k: nat, j: nat)
    requires WellFormed(inp) && ValidAllocation(inp, a) && ValidAllocation(inp, b) && a.Keys == b.Keys
    requires k < |inp.students| && j < |inp.students|
    requires forall id :: id in a && id != inp.students[k].userId && id != inp.students[j].userId ==> a[id] == b[id]
    ensures SharesElsewhere(inp, a, b, k, j)
  {
    forall i | 0 <= i < |inp.students| && i != k && i != j
      ensures Share(inp, AsChoice(a))(inp.students[i]) == Share(inp, AsChoice(b))(inp.students[i])
    {
      assert Ids(inp.students)[i] != Ids(inp.students)[k] && Ids(inp.students)[i] != Ids(inp.students)[j];
      SameShare(inp, a, b, inp.students[i]);
    }
  }

  lemma ValueAtOne(inp: Inputs, a: Allocation, b: Allocation, k: nat)
    requires k < |inp.students| && SharesElsewhere(inp, a, b, k, k)
    ensures Value(inp, b) == Value(inp, a) + Share(inp, AsChoice(b))(inp.students[k]) - Share(inp, AsChoice(a))(inp.students[k])
  {
    TotalChangesAt(inp.students, k, Share(inp, AsChoice(a)), Share(inp, AsChoice(b)));
  }

  lemma ValueAtTwo(inp: Inputs, a: Allocation, b: Allocation, k: nat, j: nat)
    requires k < |inp.students| && j < |inp.students| && k != j && Unique(Ids(inp.students)) && SharesElsewhere(inp, a, b, k, j)
    ensures Value(inp, b) == Value(inp, a)
                             + Share(inp, AsChoice(b))(inp.students[k]) - Share(inp, AsChoice(a))(inp.students[k])
                             + Share(inp, AsChoice(b))(inp.students[j]) - Share(inp, AsChoice(a))(inp.students[j])
  {
    TotalChangesAtTwo(inp.students, k, j, Share(inp, AsChoice(a)), Share(inp, AsChoice(b)));
  }

  lemma TotalChangesAtTwo(students: seq<Student>, k: nat, j: nat, f: Student -> int, g: Student -> int)
    requires k < |students| && j < |students| && k != j && Unique(Ids(students))
    requires forall i :: 0 <= i < |students| && i != k && i != j ==> f(students[i]) == g(students[i])
    ensures Total(students, g) == Total(students, f) + g(students[k]) - f(students[k]) + g(students[j]) - f(students[j])
  {
    var m := students[k];
    var h := (s: Student) => if s == m then g(s) else f(s);
    assert forall i :: 0 <= i < |students| && i != k ==> students[i] != m by {
      assert forall i :: 0 <= i < |students| && i != k ==> Ids(students)[i] != Ids(students)[k];
    }
    TotalChangesAt(students, k, f, h);
    TotalChangesAt(students, j, h, g);
  }

  lemma ShareAsWeight(inp: Inputs, a: Allocation, m: Student, r: Room)
    requires WellFormed(inp) && ValidAllocation(inp, a) && m in inp.students && r in inp.rooms && m.userId in a && a[m.userId] == r.id
    ensures Share(inp, AsChoice(a))(m) == Base(inp) + 1000 * SharedPriority(inp, inp.students, r) + 10 * (|m.hostelPreferences| - IndexOf(m.hostelPreferences, r.hostelId))
  {
    ShareOfAllocation(inp, a, m);
  }

  /** What student m gains in q over r: in shared priority and in places of the preference list. */
  function Gain(inp: Inputs, m: Student, r: Room, q: Room): int {
    1000 * (SharedPriority(inp, inp.students, q) - SharedPriority(inp, inp.students, r))
    + 10 * (IndexOf(m.hostelPreferences, r.hostelId) - IndexOf(m.hostelPreferences, q.hostelId))
  }

  lemma ShareGains(inp: Inputs, a: Allocation, b: Allocation, m: Student, r: Room, q: Room)
    requires WellFormed(inp) && ValidAllocation(inp, a) && ValidAllocation(inp, b) && m in inp.students && r in inp.rooms && q in inp.rooms
    requires m.userId in a && a[m.userId] == r.id && m.userId in b && b[m.userId] == q.id
    ensures Share(inp, AsChoice(b))(m) == Share(inp, AsChoice(a))(m) + Gain(inp, m, r, q)
  {
    ShareAsWeight(inp, a, m, r);
    ShareAsWeight(inp, b, m, q);
  }

  lemma UpdatedOnce(a: Allocation, id: StudentId, room: RoomId)
    requires id in a
    ensures a[id := room].Keys == a.Keys && a[id := room][id] == room
    ensures forall other :: other in a && other != id ==> a[other] == a[id := room][other]
  {
  }

  lemma OneMoveWorth(inp: Inputs, a: Allocation, b: Allocation, k: nat, r: Room, q: Room)
    requires WellFormed(inp) && k < |inp.students| && r in inp.rooms && q in inp.rooms
    requires ValidAllocation(inp, a) && ValidAllocation(inp, b) && inp.students[k].userId in a && a.Keys == b.Keys
    requires a[inp.students[k].userId] == r.id && b[inp.students[k].userId] == q.id
    requires forall id :: id in a && id != inp.students[k].userId ==> a[id] == b[id]
    ensures Value(inp, b) == Value(inp, a) + Gain(inp, inp.students[k], r, q)
  {
    OthersStay(inp, a, b, k, k);
    ValueAtOne(inp, a, b, k);
    ShareGains(inp, a, b, inp.students[k], r, q);
  }

  lemma PairMoveWorth(inp: Inputs, a: Allocation, b: Allocation, k: nat, j: nat, r: Room, q: Room)
    requires WellFormed(inp) && k < |inp.students| && j < |inp.students| && k != j && r in inp.rooms && q in inp.rooms
    requires ValidAllocation(inp, a) && ValidAllocation(inp, b) && a.Keys == b.Keys
    requires inp.students[k].userId in a && a[inp.students[k].userId] == r.id && b[inp.students[k].userId] == q.id
    requires inp.students[j].userId in a && a[inp.students[j].userId] == r.id && b[inp.students[j].userId] == q.id
    requires forall id :: id in a && id != inp.students[k].userId && id != inp.students[j].userId ==> a[id] == b[id]
    ensures Value(inp, b) == Value(inp, a) + Gain(inp, inp.students[k], r, q) + Gain(inp, inp.students[j], r, q)
  {
    OthersStay(inp, a, b, k, j);
    ValueAtTwo(inp, a, b, k, j);
    ShareGains(inp, a, b, inp.students[k], r, q);
    ShareGains(inp, a, b, inp.students[j], r, q);
  }

  ghost predicate NoneBetter(inp: Inputs, a: Allocation) {
    forall b :: ValidAllocation(inp, b) ==> Value(inp, b) <= Value(inp, a)
  }

  /** A maximiser as an allocation: nothing valid is worth more, and its rooms hold whom it chooses for them. */
  lemma BestAllocation(inp: Inputs, x: Choice) returns (a: Allocation)
    requires WellFormed(inp) && Maximises(inp, x)
    ensures ValidAllocation(inp, a) && NoneBetter(inp, a) && AsChoice(a) == x
  {
    a := Decode(x);
    SolutionsAreAllocations(inp, x);
    forall b | ValidAllocation(inp, b)
      ensures Value(inp, b) <= Value(inp, a)
    {
      FeasibleOfAllocation(inp, b);
    }
  }

  lemma RoomersChosen(a: Allocation, room: RoomId)
    ensures Roomers(a, room) == set v | v in AsChoice(a) && v.1 == room :: v.0
  {
    assert forall id :: id in a ==> (id, a[id]) in AsChoice(a);
  }

  lemma NotBetter(inp: Inputs, a: Allocation, b: Allocation)
    requires NoneBetter(inp, a) && ValidAllocation(inp, b)
    ensures Value(inp, b) <= Value(inp, a)
  {
  }

  function PlaceOf(students: seq<Student>, m: Student): (k: nat)
    requires m in students
    ensures k < |students| && students[k] == m
  {
    if students[0] == m then 0 else 1 + PlaceOf(students[1..], m)
  }

  lemma NoGain(inp: Inputs, a: Allocation, k: nat, r: Room, q: Room)
    requires WellFormed(inp) && k < |inp.students| && r in inp.rooms && q in inp.rooms && ValidAllocation(inp, a) && NoneBetter(inp, a)
    requires inp.students[k].userId in a && a[inp.students[k].userId] == r.id && !CohortPair(inp, inp.students[k].userId)
    requires ValidRoom(inp, inp.students[k], q) && SpareBeds(inp, a, q, 1)
    ensures Gain(inp, inp.students[k], r, q) <= 0
  {
    if q.id == r.id {
      RoomById(inp, q, r);
    } else {
      var b := a[inp.students[k].userId := q.id];
      OneMoves(inp, a, inp.students[k], q);
      UpdatedOnce(a, inp.students[k].userId, q.id);
      OneMoveWorth(inp, a, b, k, r, q);
      NotBetter(inp, a, b);
    }
  }

  lemma NoGainForPair(inp: Inputs, a: Allocation, k: nat, j: nat, r: Room, q: Room)
    requires WellFormed(inp) && k < |inp.students| && j < |inp.students| && r in inp.rooms && q in inp.rooms
    requires ValidAllocation(inp, a) && NoneBetter(inp, a)
    requires inp.students[k].userId in inp.roommates && inp.roommates[inp.students[k].userId] == inp.students[j].userId
    requires inp.students[k].userId in a && a[inp.students[k].userId] == r.id
    requires ValidRoom(inp, inp.students[k], q) && ValidRoom(inp, inp.students[j], q) && SpareBeds(inp, a, q, 2)
    ensures Gain(inp, inp.students[k], r, q) + Gain(inp, inp.students[j], r, q) <= 0
  {
    if q.id == r.id {
      RoomById(inp, q, r);
    } else {
      var m, p := inp.students[k], inp.students[j];
      var b := a[m.userId := q.id][p.userId := q.id];
      PairMoves(inp, a, m, p, q);
      UpdatedOnce(a, m.userId, q.id);
      UpdatedOnce(a[m.userId := q.id], p.userId, q.id);
      PairMoveWorth(inp, a, b, k, j, r, q);
      NotBetter(inp, a, b);
    }
  }

  // ---------- What a maximiser owes ----------

  /**
   A student without a roommate in the cohort, whom a maximiser puts into room
   r: no valid room with a bed left has the same shared priority and a hostel
   earlier in the student's list, or, the list being shorter than 100, a
   higher shared priority. At large, a point of priority weighs a hundred
   places in the list.
   */
  lemma NoBetterRoomFree(inp: Inputs, x: Choice, m: Student, r: Room, q: Room)
    requires WellFormed(inp) && Maximises(inp, x) && m in inp.students && r in inp.rooms && q in inp.rooms
    requires m.userId in inp.roommates ==> inp.roommates[m.userId] !in Cohort(inp)
    requires (m.userId, r.id) in x && ValidRoom(inp, m, q)
    requires Occ(InitialState.Initial(inp), q.id) + |set v | v in x && v.1 == q.id :: v.0| < q.capacity
    ensures 100 * (SharedPriority(inp, inp.students, q) - SharedPriority(inp, inp.students, r))
            <= IndexOf(m.hostelPreferences, q.hostelId) - IndexOf(m.hostelPreferences, r.hostelId)
    ensures SharedPriority(inp, inp.students, q) == SharedPriority(inp, inp.students, r) ==>
              IndexOf(m.hostelPreferences, r.hostelId) <= IndexOf(m.hostelPreferences, q.hostelId)
    ensures |m.hostelPreferences| < 100 ==> SharedPriority(inp, inp.students, q) <= SharedPriority(inp, inp.students, r)
  {
    var a := BestAllocation(inp, x);
    RoomersChosen(a, q.id);
    NoGain(inp, a, PlaceOf(inp.students, m), r, q);
  }

  /** The same for an accepted pair and a valid room with two beds left, its places in the two lists taken together. */
  lemma NoBetterRoomForPair(inp: Inputs, x: Choice, m: Student, p: Student, r: Room, q: Room)
    requires WellFormed(inp) && Maximises(inp, x) && m in inp.students && p in inp.students && r in inp.rooms && q in inp.rooms
    requires m.userId in inp.roommates && inp.roommates[m.userId] == p.userId
    requires (m.userId, r.id) in x && ValidRoom(inp, m, q) && ValidRoom(inp, p, q)
    requires Occ(InitialState.Initial(inp), q.id) + |set v | v in x && v.1 == q.id :: v.0| + 2 <= q.capacity
    ensures SharedPriority(inp, inp.students, q) == SharedPriority(inp, inp.students, r) ==>
              IndexOf(m.hostelPreferences, r.hostelId) + IndexOf(p.hostelPreferences, r.hostelId)
              <= IndexOf(m.hostelPreferences, q.hostelId) + IndexOf(p.hostelPreferences, q.hostelId)
    ensures |m.hostelPreferences| + |p.hostelPreferences| < 200 ==> SharedPriority(inp, inp.students, q) <= SharedPriority(inp, inp.students, r)
  {
    var a := BestAllocation(inp, x);
    RoomersChosen(a, q.id);
    NoGainForPair(inp, a, PlaceOf(inp.students, m), PlaceOf(inp.students, p), r, q);
  }

  /** A student without a roommate in the cohort whom a maximiser leaves out has no valid room with a bed left. */
  lemma LeftOutForLackOfBeds(inp: Inputs, x: Choice, m: Student, q: Room)
    requires WellFormed(inp) && Maximises(inp, x) && m in inp.students && q in inp.rooms && ValidRoom(inp, m, q)
    requires forall r :: r in inp.rules ==> r.priority >= 0
    requires m.userId in inp.roommates ==> inp.roommates[m.userId] !in Cohort(inp)
    requires forall v :: v in x ==> v.0 != m.userId
    ensures Occ(InitialState.Initial(inp), q.id) + |set v | v in x && v.1 == q.id :: v.0| >= q.capacity
  {
    var a := BestAllocation(inp, x);
    RoomersChosen(a, q.id);
    if SpareBeds(inp, a, q, 1) {
      assert forall id :: id in a ==> (id, a[id]) in x && (id, a[id]).0 == id;
      OneArrives(inp, a, m, q);
      var k :| 0 <= k < |inp.students| && inp.students[k] == m;
      ValueWith(inp, a, k, q);
      NotBetter(inp, a, a[m.userId := q.id]);
      WeightPositive(inp, m, q);
    }
  }

  lemma WeightPositive(inp: Inputs, m: Student, r: Room)
    requires m in inp.students && r in inp.rooms && forall u :: u in inp.rules ==> u.priority >= 0
    ensures Weight(inp, m, r) > 0
  {
    WeightsInRoom(inp, m, m, r);
    MaxPriorityNotNegative(inp.rules);
    Monotone(MaxBonus(inp), 0, |inp.students|);
  }

  lemma OneArrives(inp: Inputs, a: Allocation, m: Student, q: Room)
    requires WellFormed(inp) && ValidAllocation(inp, a) && m in inp.students && q in inp.rooms
    requires !CohortPair(inp, m.userId) && m.userId !in a && ValidRoom(inp, m, q) && SpareBeds(inp, a, q, 1)
    ensures ValidAllocation(inp, a[m.userId := q.id])
  {
    RoomsOf(inp, a);
    RoomersWith(a, m.userId, q.id);
    forall k | 0 <= k < |inp.rooms|
      ensures SpareBeds(inp, a[m.userId := q.id], inp.rooms[k], 0)
    {
      assert SpareBeds(inp, a, inp.rooms[k], 0);
      if inp.rooms[k].id == q.id {
        RoomById(inp, inp.rooms[k], q);
      }
    }
    VariablesAfterMove(inp, a, m, q);
    FatesAfterOne(inp, a, m.userId, q.id);
    Together(inp, a[m.userId := q.id]);
  }
}
