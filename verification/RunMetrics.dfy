/**
 The figures a run reports: how many students got a room, and how many groups
 were split, counted from the list of results, which first-come runs may fill
 with several results of one student.
 */
module RunMetrics {
  import opened Common
  import opened AllocationModel
  import opened RunSteps
  import opened FcfsRun
  import GroupPacking

  /** Hostel name and wing of a room; the place of a student without a room is None. */
  type Place = (string, Option<string>)

  function PlaceOf(places: RoomId -> Place, room: Option<RoomId>): Option<Place> {
    if room.Some? then Some(places(room.value)) else None
  }

  // ---------- What the results say about the final state ----------

  /** Successes stand, and the last result naming a student tells where the student sits. */
  ghost predicate Faithful(inp: Inputs, s: State, rs: seq<Result>) {
    && SuccessesStand(inp, s, rs)
    && forall id :: id in Cohort(inp) ==> Latest(rs, id).Some? && Latest(rs, id).value.roomId == SeatOf(s, id)
  }

  lemma FcfsFaithful(inp: Inputs, s: State, rs: seq<Result>)
    requires FcfsEnds(inp, s, rs)
    ensures Faithful(inp, s, rs)
  {
  }

  lemma CompleteFaithful(inp: Inputs, s: State, rs: seq<Result>)
    requires Complete(inp, s, rs)
    ensures Faithful(inp, s, rs)
  {
    forall i | 0 <= i < |rs|
      ensures rs[i].studentId in Cohort(inp) && rs[i].roomId == SeatOf(s, rs[i].studentId)
    {
      assert rs[i] in rs;
      assert rs[i].studentId in GroupPacking.ReportedIds(rs);
    }
    forall id | id in Cohort(inp)
      ensures Latest(rs, id).Some? && Latest(rs, id).value.roomId == SeatOf(s, id)
    {
      LatestFinds(rs, id);
      assert id in GroupPacking.ReportedIds(rs);
      var r :| r in rs && r.studentId == id;
      var i :| 0 <= i < |rs| && rs[i] == r;
    }
  }

  // ---------- Allocated students ----------

  function CountAllocated(rs: seq<Result>): nat {
    if rs == [] then 0
    else CountAllocated(rs[..|rs| - 1]) + (if rs[|rs| - 1].roomId.Some? then 1 else 0)
  }

  function SuccessIds(rs: seq<Result>): set<StudentId> {
    set r | r in rs && r.roomId.Some? :: r.studentId
  }

  ghost predicate SuccessesDistinct(rs: seq<Result>) {
    forall i, j :: 0 <= i < j < |rs| && rs[i].roomId.Some? && rs[j].roomId.Some? ==> rs[i].studentId != rs[j].studentId
  }

  lemma {:induction false} CountIsSize(rs: seq<Result>)
    requires SuccessesDistinct(rs)
    ensures CountAllocated(rs) == |SuccessIds(rs)|
  {
    if rs != [] {
      var earlier, last := rs[..|rs| - 1], rs[|rs| - 1];
      assert rs == earlier + [last];
      LastSuccess(earlier, last);
      CountIsSize(earlier);
    }
  }

  lemma LastSuccess(earlier: seq<Result>, last: Result)
    requires SuccessesDistinct(earlier + [last])
    ensures SuccessIds(earlier + [last]) == SuccessIds(earlier) + (if last.roomId.Some? then {last.studentId} else {})
    ensures last.roomId.Some? ==> last.studentId !in SuccessIds(earlier)
  {
    var rs := earlier + [last];
    assert forall r :: r in rs <==> r in earlier || r == last;
    assert rs[|earlier|] == last && forall i :: 0 <= i < |earlier| ==> rs[i] == earlier[i];
  }

  function PlacedCohort(inp: Inputs, s: State): set<StudentId> {
    set id | id in Cohort(inp) && id in s.placed
  }

  /** The number reported is the number of cohort students with a room, whatever was reported twice. */
  lemma AllocatedIsPlaced(inp: Inputs, s: State, rs: seq<Result>)
    requires Faithful(inp, s, rs)
    ensures CountAllocated(rs) == |PlacedCohort(inp, s)|
  {
    CountIsSize(rs);
    forall id | id in PlacedCohort(inp, s)
      ensures id in SuccessIds(rs)
    {
      LatestFinds(rs, id);
      assert Latest(rs, id).value in rs;
    }
    forall r | r in rs && r.roomId.Some?
      ensures r.studentId in PlacedCohort(inp, s)
    {
      var i :| 0 <= i < |rs| && rs[i] == r;
    }
    assert SuccessIds(rs) == PlacedCohort(inp, s);
  }

  // ---------- Split groups ----------

  function Active(inp: Inputs, g: Group): seq<Student> {
    Filter(g.members, (m: Student) => m.userId in Cohort(inp))
  }

  /** Two members of the cohort ended in different places, a missing room being a place of its own. */
  ghost predicate IsSplit(inp: Inputs, s: State, places: RoomId -> Place, g: Group) {
    exists a, b :: a in Active(inp, g) && b in Active(inp, g)
                   && PlaceOf(places, SeatOf(s, a.userId)) != PlaceOf(places, SeatOf(s, b.userId))
  }

  ghost function SplitCount(inp: Inputs, s: State, places: RoomId -> Place, groups: seq<Group>): nat {
    if groups == [] then 0
    else SplitCount(inp, s, places, groups[..|groups| - 1]) + (if IsSplit(inp, s, places, groups[|groups| - 1]) then 1 else 0)
  }

  /** The count is the number of groups that are split. */
  lemma SplitCountIs(inp: Inputs, s: State, places: RoomId -> Place, groups: seq<Group>)
    ensures SplitCount(inp, s, places, groups) == |set k | 0 <= k < |groups| && IsSplit(inp, s, places, groups[k])|
  {
    var p := (g: Group) => IsSplit(inp, s, places, g);
    CountsSplit(inp, s, places, groups, p);
    assert Places(groups, p) == set k | 0 <= k < |groups| && IsSplit(inp, s, places, groups[k]);
  }

  lemma {:induction false} CountsSplit(inp: Inputs, s: State, places: RoomId -> Place, groups: seq<Group>, p: Group -> bool)
    requires forall g :: p(g) <==> IsSplit(inp, s, places, g)
    ensures SplitCount(inp, s, places, groups) == |Places(groups, p)|
  {
    if groups != [] {
      var n := |groups| - 1;
      CountsSplit(inp, s, places, groups[..n], p);
      PlacesNext(groups[..n], groups[n], p);
      assert groups[..n] + [groups[n]] == groups;
    }
  }

  /** When a group is split: two of its cohort members have rooms in different hostels or wings, or one has a room and one has none. */
  lemma SplitIs(inp: Inputs, s: State, places: RoomId -> Place, g: Group)
    ensures IsSplit(inp, s, places, g) <==>
            exists a, b :: a in g.members && b in g.members && Parted(inp, s, places, a, b)
  {
    if a, b :| a in Active(inp, g) && b in Active(inp, g) && PlaceOf(places, SeatOf(s, a.userId)) != PlaceOf(places, SeatOf(s, b.userId)) {
      PlacesDiffer(s, places, a, b);
      assert a in g.members && b in g.members && (Parted(inp, s, places, a, b) || Parted(inp, s, places, b, a));
    }
    if a, b :| a in g.members && b in g.members && Parted(inp, s, places, a, b) {
      PlacesDiffer(s, places, a, b);
      assert a in Active(inp, g) && b in Active(inp, g);
    }
  }

  /** Both are of the cohort, the first has a room, and the second has none or one in another hostel or wing. */
  ghost predicate Parted(inp: Inputs, s: State, places: RoomId -> Place, a: Student, b: Student) {
    && a.userId in Cohort(inp) && b.userId in Cohort(inp) && a.userId in s.placed
    && (b.userId in s.placed ==> places(s.placed[a.userId]) != places(s.placed[b.userId]))
  }

  lemma PlacesDiffer(s: State, places: RoomId -> Place, a: Student, b: Student)
    ensures PlaceOf(places, SeatOf(s, a.userId)) != PlaceOf(places, SeatOf(s, b.userId)) <==>
            || (a.userId in s.placed && (b.userId in s.placed ==> places(s.placed[a.userId]) != places(s.placed[b.userId])))
            || (b.userId in s.placed && (a.userId in s.placed ==> places(s.placed[a.userId]) != places(s.placed[b.userId])))
  {
  }

  /** Later results overwrite earlier ones of the same student. */
  method CollectOutcomes(places: RoomId -> Place, rs: seq<Result>) returns (outcomes: map<StudentId, Option<Place>>)
    ensures forall id :: id in outcomes <==> Latest(rs, id).Some?
    ensures forall id :: id in outcomes ==> outcomes[id] == PlaceOf(places, Latest(rs, id).value.roomId)
  {
    outcomes := map[];
    var k := 0;
    while k < |rs|
      invariant 0 <= k <= |rs|
      invariant forall id :: id in outcomes <==> Latest(rs[..k], id).Some?
      invariant forall id :: id in outcomes ==> outcomes[id] == PlaceOf(places, Latest(rs[..k], id).value.roomId)
    {
      assert rs[..k + 1][..k] == rs[..k];
      outcomes := outcomes[rs[k].studentId := PlaceOf(places, rs[k].roomId)];
      k := k + 1;
    }
    assert rs[..k] == rs;
  }

  /** More than one active member with more than one distinct outcome among them. */
  method GroupIsSplit(ghost inp: Inputs, ghost s: State, ghost places: RoomId -> Place, g: Group, cohort: set<StudentId>,
                      outcomes: map<StudentId, Option<Place>>)
    returns (split: bool)
    requires cohort == Cohort(inp)
    requires forall id :: id in cohort ==> id in outcomes && outcomes[id] == PlaceOf(places, SeatOf(s, id))
    ensures split <==> IsSplit(inp, s, places, g)
  {
    var active := Filter(g.members, (m: Student) => m.userId in cohort);
    var distinct := set m | m in active && m.userId in outcomes :: outcomes[m.userId];
    split := |active| > 1 && |distinct| > 1;
    if IsSplit(inp, s, places, g) {
      TwoOutcomes(inp, s, places, g, active, outcomes);
    }
    if split {
      ghost var x, y := TwoOf(distinct);
      ghost var a :| a in active && outcomes[a.userId] == x;
      ghost var b :| b in active && outcomes[b.userId] == y;
      assert a in Active(inp, g) && b in Active(inp, g);
    }
  }

  lemma TwoOutcomes(inp: Inputs, s: State, places: RoomId -> Place, g: Group, active: seq<Student>, outcomes: map<StudentId, Option<Place>>)
    requires forall m :: m in active <==> m in Active(inp, g)
    requires forall m :: m in active ==> m.userId in outcomes && outcomes[m.userId] == PlaceOf(places, SeatOf(s, m.userId))
    requires IsSplit(inp, s, places, g)
    ensures |active| > 1 && |set m | m in active && m.userId in outcomes :: outcomes[m.userId]| > 1
  {
    var distinct := set m | m in active && m.userId in outcomes :: outcomes[m.userId];
    var a, b :| a in Active(inp, g) && b in Active(inp, g)
                && PlaceOf(places, SeatOf(s, a.userId)) != PlaceOf(places, SeatOf(s, b.userId));
    var i :| 0 <= i < |active| && active[i] == a;
    var j :| 0 <= j < |active| && active[j] == b;
    assert i != j;
    HoldsTwo(distinct, outcomes[a.userId], outcomes[b.userId]);
  }

  lemma HoldsTwo<T>(xs: set<T>, x: T, y: T)
    requires x in xs && y in xs && x != y
    ensures |xs| > 1
  {
    assert xs == {x, y} + (xs - {x, y});
  }

  lemma TwoOf<T>(xs: set<T>) returns (x: T, y: T)
    requires |xs| > 1
    ensures x in xs && y in xs && x != y
  {
    x :| x in xs;
    assert |xs - {x}| == |xs| - 1;
    y :| y in xs - {x};
  }

  // ---------- The figures ----------

  method QualityMetrics(inp: Inputs, ghost s: State, places: RoomId -> Place, rs: seq<Result>)
    returns (total: nat, allocatedStudents: nat, unallocatedStudents: int, groupSplits: nat)
    requires Faithful(inp, s, rs)
    ensures total == |inp.students| && unallocatedStudents == total - allocatedStudents
    ensures allocatedStudents == |PlacedCohort(inp, s)|
    ensures groupSplits == SplitCount(inp, s, places, inp.groups)
  {
    total := |inp.students|;
    allocatedStudents := 0;
    var k := 0;
    while k < |rs|
      invariant 0 <= k <= |rs|
      invariant allocatedStudents == CountAllocated(rs[..k])
    {
      assert rs[..k + 1][..k] == rs[..k];
      if rs[k].roomId.Some? {
        allocatedStudents := allocatedStudents + 1;
      }
      k := k + 1;
    }
    assert rs[..k] == rs;
    AllocatedIsPlaced(inp, s, rs);
    unallocatedStudents := total - allocatedStudents;
    var outcomes := CollectOutcomes(places, rs);
    groupSplits := CountSplits(inp, s, places, outcomes);
  }

  method CountSplits(inp: Inputs, ghost s: State, ghost places: RoomId -> Place, outcomes: map<StudentId, Option<Place>>)
    returns (groupSplits: nat)
    requires forall id :: id in Cohort(inp) ==> id in outcomes && outcomes[id] == PlaceOf(places, SeatOf(s, id))
    ensures groupSplits == SplitCount(inp, s, places, inp.groups)
  {
    groupSplits := 0;
    var cohort := Cohort(inp);
    var k := 0;
    while k < |inp.groups|
      invariant 0 <= k <= |inp.groups|
      invariant groupSplits == SplitCount(inp, s, places, inp.groups[..k])
    {
      assert inp.groups[..k + 1][..k] == inp.groups[..k];
      var split := GroupIsSplit(inp, s, places, inp.groups[k], cohort, outcomes);
      if split {
        groupSplits := groupSplits + 1;
      }
      k := k + 1;
    }
    assert inp.groups[..k] == inp.groups;
  }
}
