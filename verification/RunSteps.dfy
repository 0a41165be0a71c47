/**
 A run as a whole: what holds between its phases, and what its last phase
 makes of it.
 */
module RunSteps {
  import opened Common
  import opened AllocationModel
  import opened AtomicUnits
  import opened Individuals
  import opened WingPacking
  import opened GroupPacking
  import opened InitialState
  import opened EngineSteps
  import opened Fcfs
  import opened ResultCleanup

  // ---------- Members of a group still to be placed ----------

  ghost predicate IsOutstanding(inp: Inputs, s: State, all: seq<Student>, members: seq<Student>) {
    members == Filter(all, (m: Student) => m.userId in Cohort(inp) && m.userId !in s.placed)
  }

  /** A group's outstanding members: those of the cohort without a room, in the group's order. */
  lemma OutstandingAre(inp: Inputs, s: State, all: seq<Student>, members: seq<Student>) returns (places: seq<nat>)
    requires IsOutstanding(inp, s, all, members)
    ensures PicksFrom(members, all, places)
    ensures forall m :: m in members <==> m in all && m.userId !in s.placed && exists c :: c in inp.students && c.userId == m.userId
  {
    places := FilterPicks(all, (m: Student) => m.userId in Cohort(inp) && m.userId !in s.placed);
  }

  lemma {:induction false} FilterUniqueIds(all: seq<Student>, p: Student -> bool)
    requires Unique(Ids(all))
    ensures Unique(Ids(Filter(all, p)))
  {
    if all != [] {
      var n := |all| - 1;
      assert all == all[..n] + [all[n]];
      UniqueSplit(all[..n], [all[n]]);
      FilterUniqueIds(all[..n], p);
      if p(all[n]) {
        assert IdSet(Filter(all[..n], p)) <= IdSet(all[..n]);
        assert all[n].userId in IdSet([all[n]]);
        UniqueExtend(Filter(all[..n], p), [all[n]]);
      } else {
        assert Filter(all, p) == Filter(all[..n], p);
      }
    }
  }

  /** The outstanding members of a group are fit to be placed, pairs included. */
  lemma OutstandingReady(inp: Inputs, s: State, g: Group, members: seq<Student>)
    requires WellFormed(inp) && g in inp.groups && IsOutstanding(inp, s, g.members, members)
    requires KeptTogether(inp, s)
    ensures MembersReady(inp, s, members) && IdSet(members) <= Cohort(inp)
  {
    FilterUniqueIds(g.members, (m: Student) => m.userId in Cohort(inp) && m.userId !in s.placed);
    forall a | a in IdSet(members) && KeptPair(inp, a)
      ensures inp.roommates[a] in IdSet(members)
    {
      var b := inp.roommates[a];
      assert a in IdSet(g.members) && b in IdSet(g.members);
      assert SameSeat(inp, s, a);
      var m :| m in g.members && m.userId == b;
      assert m in members;
    }
  }

  // ---------- Splitting a group ----------

  ghost predicate SplitInTwo(units: seq<Unit>, chosen: seq<Unit>, rest: seq<Unit>) {
    && Unique(chosen) && Unique(rest)
    && (forall u :: u in units <==> u in chosen || u in rest)
    && (forall u :: u in chosen ==> u !in rest)
    && |units| == |chosen| + |rest|
  }

  lemma SplitOneMore(units: seq<Unit>, chosen: seq<Unit>, rest: seq<Unit>, u: Unit)
    requires SplitInTwo(units, chosen, rest) && u !in units
    ensures SplitInTwo(units + [u], chosen + [u], rest)
    ensures SplitInTwo(units + [u], chosen, rest + [u])
  {
  }

  lemma {:induction false} ApartFlat(units: seq<Unit>)
    requires Apart(units)
    ensures Unique(Ids(Flat(units)))
  {
    if units != [] {
      var n := |units| - 1;
      LastUnit(units);
      ApartFlat(units[..n]);
      forall s | s in units[n]
        ensures s.userId !in IdSet(Flat(units[..n]))
      {
        forall t | t in Flat(units[..n])
          ensures t.userId != s.userId
        {
          InFlat(units[..n], t);
          var v: Unit :| v in units[..n] && t in v;
          assert t.userId in IdSet(v) && s.userId in IdSet(units[n]);
          assert IdSet(v) !! IdSet(units[n]);
        }
      }
      UniqueExtend(Flat(units[..n]), units[n]);
    }
  }

  /** A batch of waiting units is fit to be sent to a wing. */
  lemma BatchReady(inp: Inputs, among: set<StudentId>, s: State, units: seq<Unit>, chosen: seq<Unit>, rest: seq<Unit>)
    requires Waiting(inp, among, s, units) && SplitInTwo(units, chosen, rest)
    ensures MembersReady(inp, s, Flat(chosen)) && IdSet(Flat(chosen)) <= among
    ensures Waiting(inp, among, s, rest) && IdSet(Flat(chosen)) !! IdSet(Flat(rest))
  {
    assert Apart(chosen) && Apart(rest);
    ApartFlat(chosen);
    forall m | m in Flat(chosen)
      ensures m.userId !in s.placed && m.userId in among && m.userId !in IdSet(Flat(rest))
    {
      InFlat(chosen, m);
      var u: Unit :| u in chosen && m in u;
      assert Placeable(inp, among, s, u);
      UnitApartFromFlat(units, u, rest);
    }
    forall a | a in IdSet(Flat(chosen)) && KeptPair(inp, a)
      ensures inp.roommates[a] in IdSet(Flat(chosen))
    {
      var m :| m in Flat(chosen) && m.userId == a;
      InFlat(chosen, m);
      var u: Unit :| u in chosen && m in u;
      assert Placeable(inp, among, s, u) && a in IdSet(u);
      UnitInFlat(chosen, u);
    }
  }

  lemma UnitApartFromFlat(units: seq<Unit>, u: Unit, rest: seq<Unit>)
    requires Apart(units) && u in units && u !in rest && forall v :: v in rest ==> v in units
    ensures IdSet(u) !! IdSet(Flat(rest))
  {
    forall t | t in Flat(rest)
      ensures t.userId !in IdSet(u)
    {
      InFlat(rest, t);
      var v: Unit :| v in rest && t in v;
      assert IdSet(v) !! IdSet(u);
    }
  }

  /** Units untouched by a step still wait. */
  lemma RestWaits(inp: Inputs, among: set<StudentId>, batch: set<StudentId>, s: State, s': State, rest: seq<Unit>)
    requires Waiting(inp, among, s, rest) && batch !! IdSet(Flat(rest))
    requires s'.placed.Keys <= s.placed.Keys + batch
    ensures Waiting(inp, among, s', rest)
  {
  }

  ghost predicate SplitLoop(inp: Inputs, among: set<StudentId>, s: State, s': State, remaining: seq<Unit>, rs: seq<Result>) {
    Advanced(inp, among, s, s', rs) && Counted(inp, s') && Waiting(inp, among, s', remaining)
  }

  lemma UnitsWait(inp: Inputs, s: State, members: seq<Student>)
    requires WellFormed(inp) && MembersReady(inp, s, members)
    ensures Waiting(inp, IdSet(members), s, Units(inp.roommates, members))
  {
    var units := Units(inp.roommates, members);
    PartitionOfUnits(inp.roommates, members);
    UnitsApart(units);
    forall u | u in units
      ensures Placeable(inp, IdSet(members), s, u)
    {
      ProperUnitPlaceable(inp, IdSet(members), s, members, u);
    }
  }

  lemma SplitLoopStart(inp: Inputs, s: State, members: seq<Student>)
    requires WellFormed(inp) && Sound(inp, s) && Counted(inp, s) && MembersReady(inp, s, members)
    ensures SplitLoop(inp, IdSet(members), s, s, Units(inp.roommates, members), [])
  {
    UnitsWait(inp, s, members);
  }

  lemma SplitLoopStep(inp: Inputs, among: set<StudentId>, s: State, s': State, s'': State, remaining: seq<Unit>,
                      chosen: seq<Unit>, rest: seq<Unit>, rs: seq<Result>, more: seq<Result>)
    requires SplitLoop(inp, among, s, s', remaining, rs) && SplitInTwo(remaining, chosen, rest)
    requires Advanced(inp, IdSet(Flat(chosen)), s', s'', more) && Counted(inp, s'')
    ensures SplitLoop(inp, among, s, s'', rest, rs + more)
  {
    BatchReady(inp, among, s', remaining, chosen, rest);
    AdvancedThen(inp, among, s, s', s'', rs, more);
    RestWaits(inp, among, IdSet(Flat(chosen)), s', s'', rest);
  }

  // ---------- Phases ----------

  /** Between phases: safety from the start of the run, exact counters, and a report for each student placed. */
  ghost predicate Underway(inp: Inputs, s: State, rs: seq<Result>) {
    Advanced(inp, Cohort(inp), Initial(inp), s, rs) && Counted(inp, s) && s.wings.Keys == OpenKeys(inp.rooms)
  }

  lemma UnderwayStart(inp: Inputs)
    requires WellFormed(inp)
    ensures Underway(inp, Initial(inp), [])
  {
    InitialSound(inp);
    WingsOfLockUpTo(inp, |inp.locked|);
  }

  lemma UnderwayThen(inp: Inputs, few: set<StudentId>, s: State, s': State, rs: seq<Result>, more: seq<Result>)
    requires Underway(inp, s, rs) && few <= Cohort(inp)
    requires Advanced(inp, few, s, s', more) && Counted(inp, s')
    ensures Underway(inp, s', rs + more)
  {
    AdvancedThen(inp, Cohort(inp), Initial(inp), s, s', rs, more);
  }

  lemma UnderwayNow(inp: Inputs, s: State, rs: seq<Result>)
    requires WellFormed(inp) && Underway(inp, s, rs)
    ensures Sound(inp, s) && KeptTogether(inp, s)
  {
    InitialSound(inp);
  }

  // ---------- The end of a run ----------

  /** `min` over the members' timestamps, missing ones counting as the sentinel. */
  function EarliestTimestamp(members: seq<Student>): int {
    if members == [] then NO_TIMESTAMP
    else
      var s := members[0];
      var own := if s.timestamp.Some? then s.timestamp.value else NO_TIMESTAMP;
      if |members| == 1 then own else Min(own, EarliestTimestamp(members[1..]))
  }

  /** One result per cohort student, agreeing with the final state. */
  ghost predicate Complete(inp: Inputs, s: State, rs: seq<Result>) {
    && OncePerStudent(rs)
    && ReportedIds(rs) == Cohort(inp)
    && forall r :: r in rs ==> r.roomId == (if r.studentId in s.placed then Some(s.placed[r.studentId]) else None)
  }

  /** No roommate of student k is listed earlier and without a room. */
  ghost predicate LeadsUnplaced(inp: Inputs, s: State, k: nat)
    requires k < |inp.students|
  {
    inp.students[k].userId in inp.roommates ==>
      forall j :: 0 <= j < k && inp.students[j].userId == inp.roommates[inp.students[k].userId] ==> inp.students[j].userId in s.placed
  }

  /** Two beds if the student has a roommate in the cohort who is without a room as well, else one. */
  function BedsDue(inp: Inputs, s: State, m: Student): nat {
    if m.userId in inp.roommates && inp.roommates[m.userId] in Cohort(inp) - s.placed.Keys then 2 else 1
  }

  /**
   No unit was left out while a room valid for its lead had the beds for it:
   whoever is without a room leads a unit with the roommate, if that one is
   without a room too, or is a unit alone.
   */
  ghost predicate Maximal(inp: Inputs, s: State) {
    forall k :: 0 <= k < |inp.students| && inp.students[k].userId !in s.placed && LeadsUnplaced(inp, s, k)
      ==> NoRoomFor(inp, s, inp.students[k], BedsDue(inp, s, inp.students[k]))
  }

  /**
   What a group-based or wing-FCFS run ends with, whatever the rules are.
   Each pair that no group divides is together, whatever groups do to others.
   */
  ghost predicate RunSettles(inp: Inputs, s: State, rs: seq<Result>) {
    && Sound(inp, s) && Counted(inp, s) && Grows(Initial(inp), s)
    && s.placed.Keys <= Initial(inp).placed.Keys + Cohort(inp)
    && Complete(inp, s, rs) && Maximal(inp, s)
    && KeptTogether(inp, s)
  }

  /** In particular all pairs are together if no group divides any. */
  lemma UndividedTogether(inp: Inputs, s: State, rs: seq<Result>)
    requires WellFormed(inp) && GroupsKeepPairs(inp) && RunSettles(inp, s, rs)
    ensures Together(inp, s)
  {
    AllPairsKept(inp, s);
  }

  ghost predicate IsRemaining(inp: Inputs, s: State, remaining: seq<Student>) {
    remaining == Filter(inp.students, (m: Student) => m.userId !in s.placed)
  }

  lemma RemainingUnitsReady(inp: Inputs, s: State, remaining: seq<Student>)
    requires WellFormed(inp) && IsRemaining(inp, s, remaining)
    ensures Individuals.Ready(inp, s, SortUnits(Units(inp.roommates, remaining)))
    ensures IdSet(Flat(SortUnits(Units(inp.roommates, remaining)))) == IdSet(remaining)
    ensures KeptTogether(inp, s) ==> forall u :: u in SortUnits(Units(inp.roommates, remaining)) ==> KeptClosed(inp, IdSet(u))
  {
    var units := Units(inp.roommates, remaining);
    var sorted := SortUnits(units);
    PartitionOfUnits(inp.roommates, remaining);
    UnitsApart(units);
    SortUnitsPairsFirst(units);
    ApartPermuted(units, sorted);
    ApartFlat(sorted);
    SameStudents(units, sorted);
    if KeptTogether(inp, s) {
      RemainingClosed(inp, s, remaining);
      forall u | u in sorted
        ensures KeptClosed(inp, IdSet(u))
      {
        ProperUnitClosed(inp, remaining, u);
      }
    }
    UnplacedByIds(s, Flat(sorted), remaining);
  }

  lemma RemainingClosed(inp: Inputs, s: State, remaining: seq<Student>)
    requires IsRemaining(inp, s, remaining) && KeptTogether(inp, s)
    ensures KeptClosed(inp, IdSet(remaining))
  {
    RemainingIds(inp, s, remaining);
    forall a | a in IdSet(remaining) && KeptPair(inp, a)
      ensures inp.roommates[a] in IdSet(remaining)
    {
      assert SameSeat(inp, s, a);
    }
  }

  lemma UnplacedByIds(s: State, a: seq<Student>, b: seq<Student>)
    requires IdSet(a) == IdSet(b) && Unplaced(s, b)
    ensures Unplaced(s, a)
  {
    forall m | m in a
      ensures m.userId !in s.placed
    {
      assert m.userId in IdSet(b);
    }
  }

  lemma SameStudents(a: seq<Unit>, b: seq<Unit>)
    requires forall u :: u in a <==> u in b
    ensures IdSet(Flat(a)) == IdSet(Flat(b))
  {
    forall m
      ensures m in Flat(a) <==> m in Flat(b)
    {
      InFlat(a, m);
      InFlat(b, m);
    }
  }

  /** The individual phase turns a run underway into a finished one. */
  lemma IndividualsFinish(inp: Inputs, s: State, rs: seq<Result>, remaining: seq<Student>)
    requires WellFormed(inp) && Underway(inp, s, rs) && IsRemaining(inp, s, remaining)
    ensures var units := SortUnits(Units(inp.roommates, remaining));
            && (forall u :: u in units ==> |u| >= 1)
            && RunSettles(inp, SettleAll(inp, s, units).0, rs + SettleAll(inp, s, units).1)
  {
    var units := SortUnits(Units(inp.roommates, remaining));
    UnderwayNow(inp, s, rs);
    RemainingUnitsReady(inp, s, remaining);
    SettledSafely(inp, s, rs, units, remaining);
    SettleAllReports(inp, s, units);
    ReportsComplete(inp, s, SettleAll(inp, s, units).0, rs, remaining, Flat(units), SettleAll(inp, s, units).1);
    SettledMaximally(inp, s, remaining);
  }

  lemma SettledSafely(inp: Inputs, s: State, rs: seq<Result>, units: seq<Unit>, remaining: seq<Student>)
    requires WellFormed(inp) && Underway(inp, s, rs) && Individuals.Ready(inp, s, units)
    requires IdSet(Flat(units)) == IdSet(remaining) && IdSet(remaining) <= Cohort(inp)
    ensures var s' := SettleAll(inp, s, units).0;
            && Sound(inp, s') && Counted(inp, s') && Grows(s, s') && Grows(Initial(inp), s')
            && s'.placed.Keys <= Initial(inp).placed.Keys + Cohort(inp)
            && (KeptTogether(inp, s) && (forall u :: u in units ==> KeptClosed(inp, IdSet(u))) ==> KeptTogether(inp, s'))
  {
    SettleAllKeeps(inp, s, units);
  }

  /** Whatever the earlier phases did, pairs they divided included, the individual phase leaves nobody out who fits. */
  lemma SettledMaximally(inp: Inputs, s: State, remaining: seq<Student>)
    requires WellFormed(inp) && Sound(inp, s) && Counted(inp, s) && IsRemaining(inp, s, remaining)
    ensures (forall u :: u in SortUnits(Units(inp.roommates, remaining)) ==> |u| >= 1)
    ensures Maximal(inp, SettleAll(inp, s, SortUnits(Units(inp.roommates, remaining))).0)
  {
    RemainingUnitsReady(inp, s, remaining);
    var units := SortUnits(Units(inp.roommates, remaining));
    var s' := SettleAll(inp, s, units).0;
    SettleAllKeeps(inp, s, units);
    forall k | 0 <= k < |inp.students| && inp.students[k].userId !in s'.placed && LeadsUnplaced(inp, s', k)
      ensures NoRoomFor(inp, s', inp.students[k], BedsDue(inp, s', inp.students[k]))
    {
      LeadRefused(inp, s, remaining, k);
    }
  }

  lemma ReportsComplete(inp: Inputs, s: State, s': State, rs: seq<Result>, remaining: seq<Student>, order: seq<Student>, more: seq<Result>)
    requires WellFormed(inp) && Underway(inp, s, rs) && IsRemaining(inp, s, remaining) && Grows(s, s')
    requires IdSet(order) == IdSet(remaining) && Unique(Ids(order)) && ReportsState(s', order, more)
    ensures Complete(inp, s', rs + more)
  {
    RemainingIds(inp, s, remaining);
    ReportedOnce(inp, s, rs, more);
    forall r | r in rs + more
      ensures r.roomId == (if r.studentId in s'.placed then Some(s'.placed[r.studentId]) else None)
    {
      if r in more {
        var i :| 0 <= i < |more| && more[i] == r;
      }
    }
  }

  /** Results for exactly the unplaced cohort students complete the list. */
  lemma ReportedOnce(inp: Inputs, s: State, rs: seq<Result>, more: seq<Result>)
    requires WellFormed(inp) && Underway(inp, s, rs)
    requires OncePerStudent(more) && ReportedIds(more) == Cohort(inp) - s.placed.Keys
    ensures OncePerStudent(rs + more) && ReportedIds(rs + more) == Cohort(inp)
  {
    InitialSound(inp);
    var all := rs + more;
    forall i, j | 0 <= i < j < |all|
      ensures all[i].studentId != all[j].studentId
    {
      if i < |rs| <= j {
        assert rs[i] in rs && more[j - |rs|] in more;
        assert more[j - |rs|].studentId in ReportedIds(more);
      }
    }
    assert ReportedIds(all) == ReportedIds(rs) + ReportedIds(more);
  }

  lemma RemainingIds(inp: Inputs, s: State, remaining: seq<Student>)
    requires IsRemaining(inp, s, remaining)
    ensures IdSet(remaining) == Cohort(inp) - s.placed.Keys
  {
  }

  // ---------- Leads keep their place among the remaining ----------

  lemma {:induction false} FilterIndex(all: seq<Student>, p: Student -> bool, k: nat)
    requires k < |all| && p(all[k])
    ensures |Filter(all[..k], p)| < |Filter(all, p)|
    ensures Filter(all, p)[|Filter(all[..k], p)|] == all[k]
    ensures Filter(all, p)[..|Filter(all[..k], p)|] == Filter(all[..k], p)
  {
    var n := |all| - 1;
    assert all == all[..n] + [all[n]];
    if k < n {
      FilterIndex(all[..n], p, k);
      assert all[..n][..k] == all[..k];
    }
  }

  /** A student left out at the end leads a unit of the remaining students, of the size still due. */
  lemma LeadRefused(inp: Inputs, s: State, remaining: seq<Student>, k: nat)
    requires WellFormed(inp) && Sound(inp, s) && Counted(inp, s) && IsRemaining(inp, s, remaining) && k < |inp.students|
    requires Individuals.Ready(inp, s, SortUnits(Units(inp.roommates, remaining)))
    requires var s' := SettleAll(inp, s, SortUnits(Units(inp.roommates, remaining))).0;
             Grows(s, s') && inp.students[k].userId !in s'.placed && LeadsUnplaced(inp, s', k)
    ensures var s' := SettleAll(inp, s, SortUnits(Units(inp.roommates, remaining))).0;
            NoRoomFor(inp, s', inp.students[k], BedsDue(inp, s', inp.students[k]))
  {
    var m, units := inp.students[k], Units(inp.roommates, remaining);
    var sorted := SortUnits(units);
    var s' := SettleAll(inp, s, sorted).0;
    SortUnitsPairsFirst(units);
    MateStillOut(inp, s, remaining, k);
    var k' := LeadAmongRemaining(inp, s, s', remaining, k);
    FilterUniqueIds(inp.students, (m: Student) => m.userId !in s.placed);
    LeadersLead(inp.roommates, remaining, |remaining|, k');
    assert HasLead(inp.roommates, remaining, units, m);
    var u: Unit :| u in units && |u| == UnitSize(inp.roommates, remaining, m) && u[0] == m;
    SettleAllMaximal(inp, s, sorted, u);
  }

  /** The roommate of a student left out is still out at the end, if the individual phase met it at all. */
  lemma MateStillOut(inp: Inputs, s: State, remaining: seq<Student>, k: nat)
    requires WellFormed(inp) && Sound(inp, s) && Counted(inp, s) && IsRemaining(inp, s, remaining) && k < |inp.students|
    requires Individuals.Ready(inp, s, SortUnits(Units(inp.roommates, remaining)))
    requires var s' := SettleAll(inp, s, SortUnits(Units(inp.roommates, remaining))).0;
             Grows(s, s') && inp.students[k].userId !in s'.placed
    ensures var s' := SettleAll(inp, s, SortUnits(Units(inp.roommates, remaining))).0;
            BedsDue(inp, s', inp.students[k]) == UnitSize(inp.roommates, remaining, inp.students[k])
    ensures var a := inp.students[k].userId; var s' := SettleAll(inp, s, SortUnits(Units(inp.roommates, remaining))).0;
            a in inp.roommates && inp.roommates[a] in IdSet(remaining) ==> inp.roommates[a] !in s'.placed
  {
    var a, units := inp.students[k].userId, Units(inp.roommates, remaining);
    RemainingIds(inp, s, remaining);
    if a in inp.roommates && inp.roommates[a] in IdSet(remaining) {
      SortUnitsPairsFirst(units);
      var u := PairUnit(inp.roommates, remaining, a);
      assert u[0] in u && u[1] in u;
      SettleAllFate(inp, s, SortUnits(units), u);
    }
  }

  lemma LeadAmongRemaining(inp: Inputs, s: State, s': State, remaining: seq<Student>, k: nat) returns (k': nat)
    requires IsRemaining(inp, s, remaining) && k < |inp.students| && inp.students[k].userId !in s.placed
    requires LeadsUnplaced(inp, s', k)
    requires var a := inp.students[k].userId;
             a in inp.roommates && inp.roommates[a] in IdSet(remaining) ==> inp.roommates[a] !in s'.placed
    ensures k' < |remaining| && remaining[k'] == inp.students[k] && Leads(inp.roommates, remaining, k')
  {
    var p := (m: Student) => m.userId !in s.placed;
    SameFilter(inp.students, p, (m: Student) => m.userId !in s.placed);
    FilterIndex(inp.students, p, k);
    k' := |Filter(inp.students[..k], p)|;
    forall j | 0 <= j < k'
      ensures remaining[j] in inp.students[..k] && remaining[j].userId in IdSet(remaining)
    {
      assert remaining[j] == remaining[..k'][j];
      assert remaining[..k'][j] in Filter(inp.students[..k], p);
    }
  }
}
