/** Beds come first on a cohort without pairs, however large: exchanges make room for one more. */
module SolverSingles {
  import opened Common
  import opened AllocationModel
  import opened SolverModel
  import opened SolverObjective
  import opened SolverFallbacks
  import InitialState

  /** No accepted pair has both members in the cohort. */
  ghost predicate NoPairs(inp: Inputs) {
    forall b :: b in inp.roommates && b in Cohort(inp) ==> inp.roommates[b] !in Cohort(inp)
  }

  type Allocation = map<StudentId, RoomId>

  function Value(inp: Inputs, a: Allocation): int {
    Objective(inp, AsChoice(a))
  }

  // ---------- One student more or less ----------

  lemma {:induction false} TotalChangesAt(students: seq<Student>, k: nat, f: Student -> int, g: Student -> int)
    requires k < |students| && forall i :: 0 <= i < |students| && i != k ==> f(students[i]) == g(students[i])
    ensures Total(students, g) == Total(students, f) + g(students[k]) - f(students[k])
  {
    var n := |students| - 1;
    if k < n {
      TotalChangesAt(students[..n], k, f, g);
    } else {
      TotalCongruence(students[..n], f, g);
    }
  }

  lemma ShareOfAllocation(inp: Inputs, a: Allocation, m: Student)
    requires WellFormed(inp) && ValidAllocation(inp, a) && m in inp.students
    ensures m.userId !in a ==> Share(inp, AsChoice(a))(m) == 0
    ensures forall r :: r in inp.rooms && m.userId in a && a[m.userId] == r.id ==> Share(inp, AsChoice(a))(m) == Weight(inp, m, r)
  {
    FeasibleOfAllocation(inp, a);
    ShareIs(inp, AsChoice(a), m);
    HousedOf(a);
  }

  lemma HousedOf(a: Allocation)
    ensures Housed(AsChoice(a)) == a.Keys
  {
    forall id | id in a
      ensures id in Housed(AsChoice(a))
    {
      ChosenIsHoused(AsChoice(a), id, a[id]);
    }
  }

  ghost predicate Spare(inp: Inputs, a: Allocation, r: Room) {
    Occ(InitialState.Initial(inp), r.id) + |Roomers(a, r.id)| < r.capacity
  }

  lemma RoomersWith(a: Allocation, id: StudentId, room: RoomId)
    requires id !in a
    ensures forall r :: |Roomers(a[id := room], r)| == |Roomers(a, r)| + if r == room then 1 else 0
  {
    forall r
      ensures |Roomers(a[id := room], r)| == |Roomers(a, r)| + if r == room then 1 else 0
    {
      assert Roomers(a[id := room], r) == if r == room then Roomers(a, r) + {id} else Roomers(a, r);
    }
  }

  /** One more student, in a valid room with a bed to spare. */
  lemma Added(inp: Inputs, a: Allocation, k: nat, r: Room)
    requires WellFormed(inp) && NoPairs(inp) && ValidAllocation(inp, a) && k < |inp.students| && r in inp.rooms
    requires inp.students[k].userId !in a && ValidRoom(inp, inp.students[k], r) && Spare(inp, a, r)
    ensures ValidAllocation(inp, a[inp.students[k].userId := r.id])
    ensures Value(inp, a[inp.students[k].userId := r.id]) == Value(inp, a) + Weight(inp, inp.students[k], r)
  {
    var m := inp.students[k];
    var a' := a[m.userId := r.id];
    RoomersWith(a, m.userId, r.id);
    assert IsVariable(inp, (m.userId, r.id));
    forall i | 0 <= i < |inp.rooms|
      ensures Occ(InitialState.Initial(inp), inp.rooms[i].id) + |Roomers(a', inp.rooms[i].id)| <= inp.rooms[i].capacity
    {
      if inp.rooms[i].id == r.id {
        RoomById(inp, inp.rooms[i], r);
      }
    }
    ValueWith(inp, a, k, r);
  }

  lemma ValueWith(inp: Inputs, a: Allocation, k: nat, r: Room)
    requires WellFormed(inp) && k < |inp.students| && r in inp.rooms && inp.students[k].userId !in a
    requires ValidAllocation(inp, a) && ValidAllocation(inp, a[inp.students[k].userId := r.id])
    ensures Value(inp, a[inp.students[k].userId := r.id]) == Value(inp, a) + Weight(inp, inp.students[k], r)
  {
    var m := inp.students[k];
    var a' := a[m.userId := r.id];
    var f, g := Share(inp, AsChoice(a)), Share(inp, AsChoice(a'));
    forall i | 0 <= i < |inp.students| && i != k
      ensures f(inp.students[i]) == g(inp.students[i])
    {
      assert Ids(inp.students)[i] != Ids(inp.students)[k];
      SameShare(inp, a, a', inp.students[i]);
    }
    ShareOfAllocation(inp, a, m);
    ShareOfAllocation(inp, a', m);
    TotalChangesAt(inp.students, k, f, g);
  }

  lemma SameShare(inp: Inputs, a: Allocation, b: Allocation, m: Student)
    requires WellFormed(inp) && ValidAllocation(inp, a) && ValidAllocation(inp, b) && m in inp.students
    requires m.userId in a <==> m.userId in b
    requires m.userId in a ==> a[m.userId] == b[m.userId]
    ensures Share(inp, AsChoice(a))(m) == Share(inp, AsChoice(b))(m)
  {
    ShareOfAllocation(inp, a, m);
    ShareOfAllocation(inp, b, m);
    if m.userId in a {
      assert IsVariable(inp, (m.userId, a[m.userId]));
      var r :| r in inp.rooms && r.id == a[m.userId];
    }
  }

  /** One student less. */
  lemma Dropped(inp: Inputs, a: Allocation, k: nat, r: Room)
    requires WellFormed(inp) && NoPairs(inp) && ValidAllocation(inp, a) && k < |inp.students| && r in inp.rooms
    requires inp.students[k].userId in a && a[inp.students[k].userId] == r.id
    ensures var id := inp.students[k].userId;
            && ValidAllocation(inp, a - {id}) && Spare(inp, a - {id}, r)
            && Value(inp, a - {id}) == Value(inp, a) - Weight(inp, inp.students[k], r)
  {
    var id := inp.students[k].userId;
    RemainsValid(inp, a, id);
    SpareAfter(inp, a, id, r);
    PutBack(a, id);
    ValueWith(inp, a - {id}, k, r);
  }

  lemma PutBack(a: Allocation, id: StudentId)
    requires id in a
    ensures (a - {id})[id := a[id]] == a
  {
  }

  lemma SpareAfter(inp: Inputs, a: Allocation, id: StudentId, r: Room)
    requires ValidAllocation(inp, a) && r in inp.rooms && id in a && a[id] == r.id
    ensures Spare(inp, a - {id}, r)
  {
    PutBack(a, id);
    RoomersWith(a - {id}, id, r.id);
    var i :| 0 <= i < |inp.rooms| && inp.rooms[i] == r;
  }

  lemma RemainsValid(inp: Inputs, a: Allocation, id: StudentId)
    requires NoPairs(inp) && ValidAllocation(inp, a)
    ensures ValidAllocation(inp, a - {id})
  {
    forall k | 0 <= k < |inp.rooms|
      ensures |Roomers(a - {id}, inp.rooms[k].id)| <= |Roomers(a, inp.rooms[k].id)|
    {
      SubsetSize(Roomers(a - {id}, inp.rooms[k].id), Roomers(a, inp.rooms[k].id));
    }
  }

  // ---------- The exchange ----------

  /** Students whom b houses, and a does not house there. */
  function Apart(b: Allocation, a: Allocation): set<StudentId> {
    set id | id in b && !(id in a && a[id] == b[id])
  }

  /** Weights of one room differ by preferences only, and a weight is never far below the base. */
  lemma WeightsInRoom(inp: Inputs, m: Student, q: Student, r: Room)
    requires m in inp.students && q in inp.students && r in inp.rooms && forall u :: u in inp.rules ==> u.priority >= 0
    ensures Weight(inp, m, r) - Weight(inp, q, r) >= -W_PREF * MaxPreferences(inp.students)
    ensures Weight(inp, m, r) >= Base(inp) - 1000
  {
    LongestList(inp.students, q);
    SharedPriorityInRange(inp, inp.students, r);
  }

  lemma StudentAndRoom(inp: Inputs, a: Allocation, id: StudentId) returns (k: nat, r: Room)
    requires WellFormed(inp) && ValidAllocation(inp, a) && id in a
    ensures k < |inp.students| && inp.students[k].userId == id && r in inp.rooms && a[id] == r.id && ValidRoom(inp, inp.students[k], r)
  {
    assert IsVariable(inp, (id, a[id]));
    var s;
    s, r :| s in inp.students && r in inp.rooms && s.userId == id && r.id == a[id] && ValidRoom(inp, s, r);
    k :| 0 <= k < |inp.students| && inp.students[k] == s;
  }

  lemma NoLargerInside(xs: set<StudentId>, ys: set<StudentId>)
    requires xs <= ys
    ensures |xs| <= |ys| && (|xs| == |ys| ==> xs == ys)
  {
    assert ys == xs + (ys - xs);
  }

  /** A set that is larger, or as large and different, has a member the other lacks. */
  lemma SomeoneBeyond(xs: set<StudentId>, ys: set<StudentId>) returns (x: StudentId)
    requires |xs| > |ys| || (|xs| == |ys| && !(ys <= xs))
    ensures x in xs && x !in ys
  {
    if xs <= ys {
      NoLargerInside(xs, ys);
    }
    x :| x in xs && x !in ys;
  }

  /** The room b gives the student has a bed to spare in a. */
  ghost predicate SpareFor(inp: Inputs, a: Allocation, b: Allocation, id: StudentId)
    requires id in b
  {
    exists r :: r in inp.rooms && r.id == b[id] && Spare(inp, a, r)
  }

  /** One turn of the exchange in a full room: a student whom b has there moves in, and one whom b has not moves out. */
  lemma Exchanged(inp: Inputs, a: Allocation, b: Allocation, id: StudentId) returns (a': Allocation)
    requires WellFormed(inp) && NoPairs(inp) && ValidAllocation(inp, a) && ValidAllocation(inp, b)
    requires forall u :: u in inp.rules ==> u.priority >= 0
    requires id in b && id !in a && !SpareFor(inp, a, b, id)
    ensures ValidAllocation(inp, a') && |a'| == |a| && |Apart(b, a')| < |Apart(b, a)|
    ensures Value(inp, a') >= Value(inp, a) - W_PREF * MaxPreferences(inp.students)
  {
    var k, r := StudentAndRoom(inp, b, id);
    var i :| 0 <= i < |inp.rooms| && inp.rooms[i] == r;
    assert id in Roomers(b, r.id) && id !in Roomers(a, r.id);
    var other := SomeoneBeyond(Roomers(a, r.id), Roomers(b, r.id));
    var j, q := StudentAndRoom(inp, a, other);
    RoomById(inp, q, r);
    Dropped(inp, a, j, r);
    Added(inp, a - {other}, k, r);
    WeightsInRoom(inp, inp.students[k], inp.students[j], r);
    a' := (a - {other})[id := r.id];
    ExchangeCloser(a, b, id, other, r.id);
  }

  lemma ExchangeCloser(a: Allocation, b: Allocation, id: StudentId, other: StudentId, room: RoomId)
    requires id in b && b[id] == room && id !in a && other in a && a[other] == room && other !in Roomers(b, room)
    ensures var a' := (a - {other})[id := room]; |a'| == |a| && |Apart(b, a')| < |Apart(b, a)|
  {
    var a' := (a - {other})[id := room];
    assert a'.Keys == a.Keys - {other} + {id};
    assert Apart(b, a') == Apart(b, a) - {id};
  }

  /** What n exchanges may lose. */
  function Loss(inp: Inputs, n: nat): int {
    W_PREF * MaxPreferences(inp.students) * n
  }

  lemma LossGrows(inp: Inputs, less: nat, more: nat)
    requires less < more
    ensures Loss(inp, less) + W_PREF * MaxPreferences(inp.students) <= Loss(inp, more) && 0 <= Loss(inp, less)
  {
    var p: int := W_PREF * MaxPreferences(inp.students);
    Monotone(p, 0, less);
    Monotone(p, less + 1, more);
    Distribute(p, less, 1);
  }

  lemma SeatedAtOnce(inp: Inputs, a: Allocation, b: Allocation, id: StudentId) returns (c: Allocation)
    requires WellFormed(inp) && NoPairs(inp) && ValidAllocation(inp, a) && ValidAllocation(inp, b) && id in b && id !in a
    requires forall u :: u in inp.rules ==> u.priority >= 0
    requires SpareFor(inp, a, b, id)
    ensures ValidAllocation(inp, c) && Value(inp, c) >= Value(inp, a) + Base(inp) - 1000
  {
    var k, r := StudentAndRoom(inp, b, id);
    var q :| q in inp.rooms && q.id == b[id] && Spare(inp, a, q);
    RoomById(inp, q, r);
    Added(inp, a, k, r);
    WeightsInRoom(inp, inp.students[k], inp.students[k], r);
    c := a[id := r.id];
  }

  /** Over an allocation that houses fewer there is one that houses one more, and loses at most preferences on the way. */
  lemma {:induction false} Augmented(inp: Inputs, a: Allocation, b: Allocation) returns (c: Allocation)
    requires WellFormed(inp) && NoPairs(inp) && ValidAllocation(inp, a) && ValidAllocation(inp, b) && |b| > |a|
    requires forall u :: u in inp.rules ==> u.priority >= 0
    ensures ValidAllocation(inp, c) && Value(inp, c) >= Value(inp, a) + Base(inp) - 1000 - Loss(inp, |Apart(b, a)|)
    decreases |Apart(b, a)|
  {
    var id := SomeoneBeyond(b.Keys, a.Keys);
    if SpareFor(inp, a, b, id) {
      c := SeatedAtOnce(inp, a, b, id);
      LossGrows(inp, |Apart(b, a)|, |Apart(b, a)| + 1);
    } else {
      var a' := Exchanged(inp, a, b, id);
      LossGrows(inp, |Apart(b, a')|, |Apart(b, a)|);
      c := Augmented(inp, a', b);
    }
  }

  // ---------- Beds first ----------

  lemma OneMoreHoused(before: set<StudentId>, id: StudentId, housed: set<StudentId>)
    requires id !in before
    ensures |(before + {id}) * housed| == |before * housed| + if id in housed then 1 else 0
  {
    assert (before + {id}) * housed == before * housed + (if id in housed then {id} else {});
  }

  lemma {:induction false} HousedAmong(students: seq<Student>, x: Choice)
    requires Unique(Ids(students))
    ensures Total(students, IsHoused(x)) == |IdSet(students) * Housed(x)|
  {
    if students != [] {
      var n := |students| - 1;
      IdsWithoutLast(students);
      HousedAmong(students[..n], x);
      OneMoreHoused(IdSet(students[..n]), students[n].userId, Housed(x));
    }
  }

  lemma HousedCountOf(inp: Inputs, a: Allocation)
    requires WellFormed(inp) && a.Keys <= Cohort(inp)
    ensures HousedCount(inp, AsChoice(a)) == |a| <= |inp.students|
  {
    HousedOf(a);
    HousedAmong(inp.students, AsChoice(a));
    HousedAtMostAll(inp.students, AsChoice(a));
    assert Cohort(inp) * a.Keys == a.Keys;
  }

  lemma OnlyCohort(inp: Inputs, a: Allocation)
    requires ValidAllocation(inp, a)
    ensures a.Keys <= Cohort(inp)
  {
    forall id | id in a
      ensures id in Cohort(inp)
    {
      assert IsVariable(inp, (id, a[id]));
    }
  }

  /**
   Without pairs in the cohort every maximiser of the engine's objective
   houses the most students, whatever the size of the cohort, current-room
   fallbacks included.
   */
  lemma SinglesHousedFirst(inp: Inputs, x: Choice, y: Choice)
    requires WellFormed(inp) && NoPairs(inp) && Maximises(inp, x) && Feasible(inp, y)
    requires forall r :: r in inp.rules ==> r.priority >= 0
    ensures HousedCount(inp, y) <= HousedCount(inp, x)
  {
    var a, b := Decode(x), Decode(y);
    SolutionsAreAllocations(inp, x);
    SolutionsAreAllocations(inp, y);
    OnlyCohort(inp, a);
    OnlyCohort(inp, b);
    HousedCountOf(inp, a);
    HousedCountOf(inp, b);
    if |b| > |a| {
      var c := Augmented(inp, a, b);
      FeasibleOfAllocation(inp, c);
      SubsetSize(Apart(b, a), b.Keys);
      BaseCovers(inp, |Apart(b, a)|);
    }
  }

  lemma BaseCovers(inp: Inputs, n: nat)
    requires n <= |inp.students| && forall r :: r in inp.rules ==> r.priority >= 0
    ensures Loss(inp, n) < Base(inp) - 1000
  {
    var p: int := W_PREF * MaxPreferences(inp.students);
    MaxPriorityNotNegative(inp.rules);
    Monotone(p, n, |inp.students|);
    Monotone(|inp.students|, p, MaxBonus(inp));
  }

  /**
   When the objective puts beds first: the cohort has no pairs, or the
   students who can fall back on rooms with a fallback priority are few
   against the base weight, which covers a cohort without fallbacks and a
   small one (SolverFallbacks.CoversBoth). Beyond this it need not
   (SolverTradeOff.DominanceFails).
   */
  lemma BedsFirst(inp: Inputs, x: Choice, y: Choice)
    requires WellFormed(inp) && Maximises(inp, x) && Feasible(inp, y)
    requires forall r :: r in inp.rules ==> r.priority >= 0
    requires NoPairs(inp) || 1000 * MostFallbacks(inp) < 1_000_000 + MaxBonus(inp)
    ensures HousedCount(inp, y) <= HousedCount(inp, x)
  {
    if NoPairs(inp) {
      SinglesHousedFirst(inp, x, y);
    } else {
      FewFallbacksHouseMost(inp, x, y);
    }
  }
}
