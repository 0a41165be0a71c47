/** What current-room fallbacks can cost the objective, and when beds come first all the same. */
module SolverFallbacks {
  import opened Common
  import opened AllocationModel
  import opened SolverModel
  import opened SolverObjective

  // ---------- Beds with the fallback priority ----------

  /** The last student for whom the room is valid lives in it, and has left it the priority -1. */
  predicate FallbackRoom(inp: Inputs, r: Room) {
    r.status.Available? && SharedPriority(inp, inp.students, r) < 0
  }

  /** The remaining beds of the fallback rooms among those listed. */
  function FallbackBeds(inp: Inputs, rooms: seq<Room>): nat {
    if rooms == [] then 0
    else
      var n := |rooms| - 1;
      FallbackBeds(inp, rooms[..n]) + (if FallbackRoom(inp, rooms[n]) then Remaining(inp, rooms[n]) else 0)
  }

  /** At most as many students as there are, or as fallback rooms take, lose the fallback penalty. */
  function MostFallbacks(inp: Inputs): nat {
    var beds := FallbackBeds(inp, inp.rooms);
    if beds < |inp.students| then beds else |inp.students|
  }

  ghost predicate InFallback(inp: Inputs, x: Choice, rooms: seq<Room>, id: StudentId) {
    exists r :: r in rooms && FallbackRoom(inp, r) && (id, r.id) in x
  }

  ghost function FallsBack(inp: Inputs, x: Choice, rooms: seq<Room>): Student -> int {
    (m: Student) => if InFallback(inp, x, rooms, m.userId) then 1 else 0
  }

  lemma {:induction false} TotalSum<T(!new)>(xs: seq<T>, f: T -> int, g: T -> int, h: T -> int)
    requires forall x :: x in xs ==> f(x) <= g(x) + h(x)
    ensures Total(xs, f) <= Total(xs, g) + Total(xs, h)
  {
    if xs != [] {
      var n := |xs| - 1;
      assert xs == xs[..n] + [xs[n]];
      assert xs[n] in xs;
      TotalSum(xs[..n], f, g, h);
    }
  }

  lemma {:induction false} TotalAtMostOne(students: seq<Student>, f: Student -> int)
    requires forall m :: m in students ==> 0 <= f(m) <= 1
    ensures 0 <= Total(students, f) <= |students|
  {
    if students != [] {
      var n := |students| - 1;
      assert students == students[..n] + [students[n]];
      assert students[n] in students;
      TotalAtMostOne(students[..n], f);
    }
  }

  lemma FallbackSplits(inp: Inputs, x: Choice, rooms: seq<Room>, m: Student)
    requires |rooms| > 0
    ensures var n := |rooms| - 1;
            FallsBack(inp, x, rooms)(m) <= FallsBack(inp, x, rooms[..n])(m) + Chosen(x, rooms[n].id)(m)
    ensures !FallbackRoom(inp, rooms[|rooms| - 1]) ==> FallsBack(inp, x, rooms)(m) == FallsBack(inp, x, rooms[..|rooms| - 1])(m)
  {
    var n := |rooms| - 1;
    assert rooms == rooms[..n] + [rooms[n]];
  }

  /** No more students fall back than the fallback rooms have beds, by constraint B. */
  lemma {:induction false} FallbacksInBeds(inp: Inputs, x: Choice, rooms: seq<Room>)
    requires forall r :: r in rooms && r.status.Available? ==> Total(inp.students, Chosen(x, r.id)) <= Remaining(inp, r)
    ensures Total(inp.students, FallsBack(inp, x, rooms)) <= FallbackBeds(inp, rooms)
  {
    var f := FallsBack(inp, x, rooms);
    if rooms == [] {
      NobodyCounts(inp.students, f);
    } else {
      var n := |rooms| - 1;
      assert rooms == rooms[..n] + [rooms[n]];
      var g := FallsBack(inp, x, rooms[..n]);
      FallbacksInBeds(inp, x, rooms[..n]);
      forall m | m in inp.students
        ensures f(m) <= g(m) + Chosen(x, rooms[n].id)(m)
        ensures !FallbackRoom(inp, rooms[n]) ==> f(m) == g(m)
      {
        FallbackSplits(inp, x, rooms, m);
      }
      if FallbackRoom(inp, rooms[n]) {
        assert rooms[n] in rooms;
        TotalSum(inp.students, f, g, Chosen(x, rooms[n].id));
      } else {
        TotalCongruence(inp.students, f, g);
      }
    }
  }

  lemma {:induction false} NobodyCounts(students: seq<Student>, f: Student -> int)
    requires forall m :: m in students ==> f(m) == 0
    ensures Total(students, f) == 0
  {
    if students != [] {
      var n := |students| - 1;
      assert students == students[..n] + [students[n]];
      assert students[n] in students;
      NobodyCounts(students[..n], f);
    }
  }

  lemma FewFallBack(inp: Inputs, x: Choice)
    requires Feasible(inp, x)
    ensures 0 <= Total(inp.students, FallsBack(inp, x, inp.rooms)) <= MostFallbacks(inp)
  {
    forall r | r in inp.rooms && r.status.Available?
      ensures Total(inp.students, Chosen(x, r.id)) <= Remaining(inp, r)
    {
      var k :| 0 <= k < |inp.rooms| && inp.rooms[k] == r;
    }
    FallbacksInBeds(inp, x, inp.rooms);
    TotalAtMostOne(inp.students, FallsBack(inp, x, inp.rooms));
  }

  // ---------- What they cost ----------

  lemma WeightAtLeast(inp: Inputs, m: Student, r: Room)
    requires m in inp.students && r in inp.rooms && r.status.Available? && forall u :: u in inp.rules ==> u.priority >= 0
    ensures Weight(inp, m, r) >= Base(inp) - if FallbackRoom(inp, r) then 1000 else 0
  {
    SharedPriorityInRange(inp, inp.students, r);
  }

  lemma HousedShare(inp: Inputs, x: Choice, m: Student) returns (r: Room)
    requires WellFormed(inp) && Feasible(inp, x) && m in inp.students && m.userId in Housed(x)
    ensures r in inp.rooms && r.status.Available? && (m.userId, r.id) in x && Share(inp, x)(m) == Weight(inp, m, r)
  {
    ShareIs(inp, x, m);
    r :| r in inp.rooms && (m.userId, r.id) in x;
    assert IsVariable(inp, (m.userId, r.id));
    var s, q :| s in inp.students && q in inp.rooms && s.userId == m.userId && q.id == r.id && ValidRoom(inp, s, q);
    RoomById(inp, q, r);
  }

  lemma ShareAtLeast(inp: Inputs, x: Choice, m: Student)
    requires WellFormed(inp) && Feasible(inp, x) && m in inp.students && forall u :: u in inp.rules ==> u.priority >= 0
    ensures Share(inp, x)(m) >= Base(inp) * IsHoused(x)(m) - 1000 * FallsBack(inp, x, inp.rooms)(m)
  {
    if m.userId in Housed(x) {
      var r := HousedShare(inp, x, m);
      WeightAtLeast(inp, m, r);
      assert FallbackRoom(inp, r) ==> InFallback(inp, x, inp.rooms, m.userId);
    } else {
      ShareIs(inp, x, m);
    }
  }

  lemma {:induction false} SumAtLeast(students: seq<Student>, f: Student -> int, h: Student -> int, g: Student -> int, a: int, b: int)
    requires forall m :: m in students ==> f(m) >= a * h(m) - b * g(m)
    ensures Total(students, f) >= a * Total(students, h) - b * Total(students, g)
  {
    if students != [] {
      var n := |students| - 1;
      assert students == students[..n] + [students[n]];
      assert students[n] in students;
      SumAtLeast(students[..n], f, h, g, a, b);
      Distribute(a, Total(students[..n], h), h(students[n]));
      Distribute(b, Total(students[..n], g), g(students[n]));
    }
  }

  lemma ObjectiveAtLeast(inp: Inputs, x: Choice)
    requires WellFormed(inp) && Feasible(inp, x) && forall u :: u in inp.rules ==> u.priority >= 0
    ensures Objective(inp, x) >= Base(inp) * HousedCount(inp, x) - 1000 * MostFallbacks(inp)
  {
    forall m | m in inp.students
      ensures Share(inp, x)(m) >= Base(inp) * IsHoused(x)(m) - 1000 * FallsBack(inp, x, inp.rooms)(m)
    {
      ShareAtLeast(inp, x, m);
    }
    SumAtLeast(inp.students, Share(inp, x), IsHoused(x), FallsBack(inp, x, inp.rooms), Base(inp), 1000);
    FewFallBack(inp, x);
  }

  lemma ObjectiveAtMost(inp: Inputs, x: Choice)
    requires WellFormed(inp) && Feasible(inp, x) && forall u :: u in inp.rules ==> u.priority >= 0
    ensures 0 <= HousedCount(inp, x) <= |inp.students|
    ensures Objective(inp, x) <= (Base(inp) + MaxBonus(inp)) * HousedCount(inp, x)
  {
    forall r | r in inp.rooms
      ensures -1 <= SharedPriority(inp, inp.students, r) <= MaxPriority(inp.rules)
    {
      SharedPriorityInRange(inp, inp.students, r);
    }
    AllWeights(inp, -1);
    ObjectiveRange(inp, Base(inp) - 1000, Base(inp) + MaxBonus(inp), x);
  }

  /** The numbers: one bed more outweighs every bonus and the penalties of c students. */
  lemma OneMoreBedCovers(n: nat, bonus: int, c: nat, h: int, k: int)
    requires 0 <= k < h <= n && bonus >= 0 && 1000 * c < 1_000_000 + bonus
    ensures (n * bonus + 1_000_000 + bonus) * k < (n * bonus + 1_000_000) * h - 1000 * c
  {
    var base := n * bonus + 1_000_000;
    Monotone(base + bonus, k, h - 1);
    Distribute(h - 1, base, bonus);
    OneLess(base, h);
    OneLess(bonus, h);
    Monotone(bonus, h, n);
  }

  /** Beds come first when the fallbacks that fit are few against the base weight. */
  lemma FewFallbacksHouseMost(inp: Inputs, x: Choice, y: Choice)
    requires WellFormed(inp) && Maximises(inp, x) && Feasible(inp, y)
    requires forall r :: r in inp.rules ==> r.priority >= 0
    requires 1000 * MostFallbacks(inp) < 1_000_000 + MaxBonus(inp)
    ensures HousedCount(inp, y) <= HousedCount(inp, x)
  {
    MaxPriorityNotNegative(inp.rules);
    ObjectiveAtLeast(inp, y);
    ObjectiveAtMost(inp, x);
    ObjectiveAtMost(inp, y);
    if HousedCount(inp, x) < HousedCount(inp, y) {
      OneMoreBedCovers(|inp.students|, MaxBonus(inp), MostFallbacks(inp), HousedCount(inp, y), HousedCount(inp, x));
    }
  }

  /** This covers a cohort without fallbacks and a small cohort. */
  lemma CoversBoth(inp: Inputs)
    requires forall r :: r in inp.rules ==> r.priority >= 0
    ensures NoFallback(inp) ==> MostFallbacks(inp) == 0 && 1000 * MostFallbacks(inp) < 1_000_000 + MaxBonus(inp)
    ensures 1000 * |inp.students| < 1_000_000 + MaxBonus(inp) ==> 1000 * MostFallbacks(inp) < 1_000_000 + MaxBonus(inp)
  {
    MaxPriorityNotNegative(inp.rules);
    if NoFallback(inp) {
      NoFallbackBeds(inp, inp.rooms);
    }
  }

  lemma {:induction false} NoFallbackBeds(inp: Inputs, rooms: seq<Room>)
    requires NoFallback(inp) && (forall r :: r in rooms ==> r in inp.rooms) && forall r :: r in inp.rules ==> r.priority >= 0
    ensures FallbackBeds(inp, rooms) == 0
  {
    if rooms != [] {
      var n := |rooms| - 1;
      assert rooms == rooms[..n] + [rooms[n]];
      assert rooms[n] in rooms;
      NoFallbackBeds(inp, rooms[..n]);
      SharedPriorityInRange(inp, inp.students, rooms[n]);
    }
  }

  /**
   Every maximiser of the engine's objective houses as many students as any
   valid allocation does, if rule priorities are at least 0 and no student may
   keep a current room, or the cohort is small against the base weight.
   */
  lemma MaximiserHousesMost(inp: Inputs, x: Choice, y: Choice)
    requires WellFormed(inp) && Maximises(inp, x) && Feasible(inp, y)
    requires forall r :: r in inp.rules ==> r.priority >= 0
    requires NoFallback(inp) || 1000 * |inp.students| < 1_000_000 + MaxBonus(inp)
    ensures HousedCount(inp, y) <= HousedCount(inp, x)
  {
    CoversBoth(inp);
    FewFallbacksHouseMost(inp, x, y);
  }
}
