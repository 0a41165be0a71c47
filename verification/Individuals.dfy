/**
 Placing units one after another, each into the best room valid for its first
 member that still has space for all of it.
 */
module Individuals {
  import opened Common
  import opened AllocationModel

  const NO_ROOM := "No available room with sufficient capacity for unit"

  predicate Fits(s: State, room: Room, n: nat) {
    Occ(s, room.id) + n <= room.capacity
  }

  function RankKey(inp: Inputs, s: State, student: Student, room: Room): seq<int> {
    var preference: int := IndexOf(student.hostelPreferences, room.hostelId);
    var occupants: int := Occ(s, room.id);
    [-MatchPriority(inp, student, room), preference, -occupants, room.id]
  }

  function Ranked(inp: Inputs, s: State, student: Student): seq<Room> {
    SortBy(ValidRooms(inp, student), r => RankKey(inp, s, student, r))
  }

  function FirstFit(s: State, rooms: seq<Room>, n: nat): Option<Room> {
    if rooms == [] then None
    else if Fits(s, rooms[0], n) then Some(rooms[0])
    else FirstFit(s, rooms[1..], n)
  }

  function BestRoom(inp: Inputs, s: State, student: Student, n: nat): Option<Room> {
    FirstFit(s, Ranked(inp, s, student), n)
  }

  function UnitResults(unit: Unit, room: Option<RoomId>, groupId: Option<int>, reason: Option<string>): (r: seq<Result>)
    ensures |r| == |unit|
    ensures forall i :: 0 <= i < |unit| ==>
              r[i].studentId == unit[i].userId && r[i].roomId == room && r[i].groupId == groupId && r[i].reason == reason
  {
    seq(|unit|, i requires 0 <= i < |unit| => Result(unit[i].userId, room, groupId, reason))
  }

  function Settle(inp: Inputs, s: State, unit: Unit): (State, seq<Result>)
    requires |unit| >= 1
  {
    var room := BestRoom(inp, s, unit[0], |unit|);
    if room.Some? then
      (Charge(Seat(s, Ids(unit), room.value.id), KeyOf(room.value), |unit|),
       UnitResults(unit, Some(room.value.id), None, None))
    else
      (s, UnitResults(unit, None, None, Some(NO_ROOM)))
  }

  /** The units settled from left to right. */
  function SettleAll(inp: Inputs, s: State, units: seq<Unit>): (State, seq<Result>)
    requires forall u :: u in units ==> |u| >= 1
  {
    if units == [] then (s, [])
    else
      var n := |units| - 1;
      assert units == units[..n] + [units[n]];
      assert forall u :: u in units[..n] ==> u in units;
      assert units[n] in units;
      var before := SettleAll(inp, s, units[..n]);
      var last := Settle(inp, before.0, units[n]);
      (last.0, before.1 + last.1)
  }

  lemma SettleAllStep(inp: Inputs, s: State, units: seq<Unit>, k: nat)
    requires k < |units| && forall u :: u in units ==> |u| >= 1
    ensures var before := SettleAll(inp, s, units[..k]);
            var last := Settle(inp, before.0, units[k]);
            SettleAll(inp, s, units[..k + 1]) == (last.0, before.1 + last.1)
  {
    assert units[..k + 1][..k] == units[..k];
  }

  /** A success needs no reason; a failure names no group and gives the one reason there is. */
  ghost predicate Explained(r: Result) {
    if r.roomId.Some? then r.reason.None?
    else r.groupId.None? && r.reason == Some("No available room with sufficient capacity for unit")
  }

  lemma {:induction false} SettleAllExplains(inp: Inputs, s: State, units: seq<Unit>)
    requires forall u :: u in units ==> |u| >= 1
    ensures forall r :: r in SettleAll(inp, s, units).1 ==> Explained(r) && r.groupId.None?
  {
    if units != [] {
      var n := |units| - 1;
      assert units == units[..n] + [units[n]];
      assert forall u :: u in units[..n] ==> u in units;
      SettleAllExplains(inp, s, units[..n]);
      SettleExplains(inp, SettleAll(inp, s, units[..n]).0, units[n]);
    }
  }

  lemma SettleExplains(inp: Inputs, s: State, unit: Unit)
    requires |unit| >= 1
    ensures forall r :: r in Settle(inp, s, unit).1 ==> Explained(r) && r.groupId.None?
  {
    var rs := Settle(inp, s, unit).1;
    forall r | r in rs
      ensures Explained(r) && r.groupId.None?
    {
      var i :| 0 <= i < |rs| && rs[i] == r;
    }
  }

  // ---------- The room chosen is the best ----------

  /** Rule priority first, then the student's hostel preference. */
  predicate AtLeastAsGood(inp: Inputs, student: Student, a: Room, b: Room) {
    var pa, pb := MatchPriority(inp, student, a), MatchPriority(inp, student, b);
    pa > pb
    || (pa == pb && IndexOf(student.hostelPreferences, a.hostelId) <= IndexOf(student.hostelPreferences, b.hostelId))
  }

  lemma {:induction false} FirstFitFinds(s: State, rooms: seq<Room>, n: nat)
    ensures FirstFit(s, rooms, n).None? <==> forall q :: q in rooms ==> !Fits(s, q, n)
    ensures var c := FirstFit(s, rooms, n);
            c.Some? ==> Fits(s, c.value, n)
                        && exists i :: 0 <= i < |rooms| && rooms[i] == c.value
                             && forall k :: 0 <= k < i ==> !Fits(s, rooms[k], n)
  {
    if rooms != [] {
      var rest := rooms[1..];
      assert rooms == [rooms[0]] + rest;
      FirstFitFinds(s, rest, n);
      if Fits(s, rooms[0], n) {
        assert rooms[0] in rooms;
      } else if FirstFit(s, rest, n).Some? {
        var c := FirstFit(s, rest, n).value;
        var i :| 0 <= i < |rest| && rest[i] == c && forall k :: 0 <= k < i ==> !Fits(s, rest[k], n);
        forall k | 0 <= k < i + 1
          ensures !Fits(s, rooms[k], n)
        {
          if k > 0 { assert rooms[k] == rest[k - 1]; }
        }
        assert rooms[i + 1] == c;
      }
    }
  }

  lemma RankedRooms(inp: Inputs, s: State, student: Student)
    ensures forall q :: q in Ranked(inp, s, student) <==> q in inp.rooms && ValidRoom(inp, student, q)
    ensures SortedBy(Ranked(inp, s, student), r => RankKey(inp, s, student, r))
  {
    var key := r => RankKey(inp, s, student, r);
    SortByPermutes(ValidRooms(inp, student), key);
    SortBySorted(ValidRooms(inp, student), key);
    assert SortBy(ValidRooms(inp, student), key) == Ranked(inp, s, student) by {
      SortByCongruence(ValidRooms(inp, student), key, r => RankKey(inp, s, student, r));
    }
  }

  lemma RankKeyOrder(inp: Inputs, s: State, student: Student, a: Room, b: Room)
    requires LexLeq(RankKey(inp, s, student, a), RankKey(inp, s, student, b))
    ensures AtLeastAsGood(inp, student, a, b)
  {
  }

  /**
   A unit of n is refused only when every room valid for its lead lacks n free
   beds; otherwise it gets a valid room with space that no other valid room
   with space beats.
   */
  lemma BestRoomIsBest(inp: Inputs, s: State, student: Student, n: nat)
    ensures BestRoom(inp, s, student, n).None?
            <==> forall q :: q in inp.rooms && ValidRoom(inp, student, q) ==> !Fits(s, q, n)
    ensures var c := BestRoom(inp, s, student, n);
            c.Some? ==> c.value in inp.rooms && ValidRoom(inp, student, c.value) && Fits(s, c.value, n)
                        && forall q :: q in inp.rooms && ValidRoom(inp, student, q) && Fits(s, q, n)
                             ==> AtLeastAsGood(inp, student, c.value, q)
  {
    var ranked := Ranked(inp, s, student);
    RankedRooms(inp, s, student);
    FirstFitFinds(s, ranked, n);
    var c := BestRoom(inp, s, student, n);
    if c.Some? {
      var i :| 0 <= i < |ranked| && ranked[i] == c.value && forall k :: 0 <= k < i ==> !Fits(s, ranked[k], n);
      assert ranked[i] in ranked;
      forall q | q in inp.rooms && ValidRoom(inp, student, q) && Fits(s, q, n)
        ensures AtLeastAsGood(inp, student, c.value, q)
      {
        assert q in ranked;
        var j :| 0 <= j < |ranked| && ranked[j] == q;
        assert i <= j;
        EarlierIsAsGood(inp, s, student, i, j);
      }
    }
  }

  lemma EarlierIsAsGood(inp: Inputs, s: State, student: Student, i: nat, j: nat)
    requires i <= j < |Ranked(inp, s, student)|
    ensures AtLeastAsGood(inp, student, Ranked(inp, s, student)[i], Ranked(inp, s, student)[j])
  {
    RankedRooms(inp, s, student);
    if i < j {
      RankKeyOrder(inp, s, student, Ranked(inp, s, student)[i], Ranked(inp, s, student)[j]);
    }
  }

  lemma LexOfFour(a: seq<int>, b: seq<int>)
    requires |a| == 4 && |b| == 4 && LexLeq(a, b)
    ensures a[0] == b[0] && a[1] == b[1] ==> a[2] < b[2] || (a[2] == b[2] && a[3] <= b[3])
  {
    var a1, b1 := a[1..], b[1..];
    var a2, b2 := a1[1..], b1[1..];
    assert LexLeq(a, b) == (a[0] < b[0] || (a[0] == b[0] && LexLeq(a1, b1)));
    var a3, b3 := a2[1..], b2[1..];
    assert LexLeq(a1, b1) == (a[1] < b[1] || (a[1] == b[1] && LexLeq(a2, b2)));
    assert LexLeq(a2, b2) == (a[2] < b[2] || (a[2] == b[2] && LexLeq(a3, b3)));
    assert a3 == [a[3]] && b3 == [b[3]];
  }

  /** Of rooms alike in priority and preference the fullest one with space is taken, and of equally full ones the first id. */
  lemma FullestOfEquals(inp: Inputs, s: State, student: Student, n: nat, q: Room)
    requires BestRoom(inp, s, student, n).Some?
    requires q in inp.rooms && ValidRoom(inp, student, q) && Occ(s, q.id) + n <= q.capacity
    ensures var c := BestRoom(inp, s, student, n).value;
            MatchPriority(inp, student, c) == MatchPriority(inp, student, q)
            && IndexOf(student.hostelPreferences, c.hostelId) == IndexOf(student.hostelPreferences, q.hostelId)
            ==> Occ(s, c.id) > Occ(s, q.id) || (Occ(s, c.id) == Occ(s, q.id) && c.id <= q.id)
  {
    var c := BestRoom(inp, s, student, n).value;
    RanksNoLater(inp, s, student, n, q);
    if c != q {
      LexOfFour(RankKey(inp, s, student, c), RankKey(inp, s, student, q));
    }
  }

  /** The room chosen is ranked no later than any valid room with space. */
  lemma RanksNoLater(inp: Inputs, s: State, student: Student, n: nat, q: Room)
    requires BestRoom(inp, s, student, n).Some?
    requires q in inp.rooms && ValidRoom(inp, student, q) && Fits(s, q, n)
    ensures var c := BestRoom(inp, s, student, n).value; c == q || LexLeq(RankKey(inp, s, student, c), RankKey(inp, s, student, q))
  {
    var ranked, c := Ranked(inp, s, student), BestRoom(inp, s, student, n).value;
    RankedRooms(inp, s, student);
    FirstFitFinds(s, ranked, n);
    var i :| 0 <= i < |ranked| && ranked[i] == c && forall k :: 0 <= k < i ==> !Fits(s, ranked[k], n);
    assert q in ranked;
    var j :| 0 <= j < |ranked| && ranked[j] == q;
    assert i <= j;
    if i < j {
      EarlierByKey(inp, s, student, i, j);
    }
  }

  lemma EarlierByKey(inp: Inputs, s: State, student: Student, i: nat, j: nat)
    requires i < j < |Ranked(inp, s, student)|
    ensures LexLeq(RankKey(inp, s, student, Ranked(inp, s, student)[i]), RankKey(inp, s, student, Ranked(inp, s, student)[j]))
  {
    RankedRooms(inp, s, student);
  }

  // ---------- What settling keeps ----------

  ghost predicate Unplaced(s: State, students: seq<Student>) {
    forall m :: m in students ==> m.userId !in s.placed
  }

  lemma SettleKeeps(inp: Inputs, s: State, unit: Unit)
    requires WellFormed(inp) && Sound(inp, s) && Counted(inp, s)
    requires |unit| >= 1 && Unique(Ids(unit)) && Unplaced(s, unit)
    ensures var s' := Settle(inp, s, unit).0;
            && Sound(inp, s') && Counted(inp, s') && Grows(s, s')
            && (Together(inp, s) && PairClosed(inp, IdSet(unit)) ==> Together(inp, s'))
            && (KeptTogether(inp, s) && KeptClosed(inp, IdSet(unit)) ==> KeptTogether(inp, s'))
            && s'.placed.Keys <= s.placed.Keys + IdSet(unit)
  {
    BestRoomIsBest(inp, s, unit[0], |unit|);
    var room := BestRoom(inp, s, unit[0], |unit|);
    if room.Some? {
      IdsOfUnit(unit);
      SeatKeepsSound(inp, s, Ids(unit), room.value);
      SeatGrows(s, Ids(unit), room.value.id);
      SeatAndChargeCounted(inp, s, Ids(unit), room.value);
      if Together(inp, s) && PairClosed(inp, IdSet(unit)) {
        SeatKeepsTogetherIff(inp, s, Ids(unit), room.value.id);
      }
      if KeptTogether(inp, s) && KeptClosed(inp, IdSet(unit)) {
        SeatKeepsKept(inp, s, Ids(unit), room.value.id);
      }
      ChargeOnlyWings(inp, Seat(s, Ids(unit), room.value.id), KeyOf(room.value), |unit|);
    }
  }

  lemma IdsOfUnit(unit: Unit)
    ensures (set id | id in Ids(unit)) == IdSet(unit)
    ensures forall id :: id in Ids(unit) <==> id in IdSet(unit)
  {
  }

  lemma ChargeOnlyWings(inp: Inputs, s: State, w: WingKey, n: int)
    ensures Sound(inp, s) ==> Sound(inp, Charge(s, w, n))
    ensures Together(inp, s) ==> Together(inp, Charge(s, w, n))
    ensures KeptTogether(inp, s) ==> KeptTogether(inp, Charge(s, w, n))
    ensures forall r :: Occ(Charge(s, w, n), r) == Occ(s, r)
    ensures Charge(s, w, n).placed == s.placed && Charge(s, w, n).wings.Keys == s.wings.Keys
  {
  }

  /** What is asked of a list of units before it is settled. */
  ghost predicate Ready(inp: Inputs, s: State, units: seq<Unit>) {
    && (forall u :: u in units ==> |u| >= 1)
    && Unique(Ids(Flat(units)))
    && Unplaced(s, Flat(units))
  }

  lemma ReadyPrefix(inp: Inputs, s: State, units: seq<Unit>)
    requires Ready(inp, s, units) && |units| > 0
    ensures var n := |units| - 1;
            && Ready(inp, s, units[..n]) && Unique(Ids(units[n])) && Unplaced(s, units[n])
            && |units[n]| >= 1 && IdSet(units[n]) !! IdSet(Flat(units[..n]))
  {
    var n := |units| - 1;
    assert Flat(units) == Flat(units[..n]) + units[n];
    ReadySplit(s, Flat(units[..n]), units[n]);
    assert units[n] in units && forall u :: u in units[..n] ==> u in units;
  }

  lemma LastUnit(units: seq<Unit>)
    requires |units| > 0
    ensures IdSet(Flat(units)) == IdSet(Flat(units[..|units| - 1])) + IdSet(units[|units| - 1])
    ensures forall u :: u in units <==> u in units[..|units| - 1] || u == units[|units| - 1]
  {
  }

  lemma UnitInFlat(units: seq<Unit>, u: Unit)
    requires u in units
    ensures IdSet(u) <= IdSet(Flat(units))
  {
  }

  lemma ReadySplit(s: State, a: seq<Student>, b: seq<Student>)
    requires Unique(Ids(a + b)) && Unplaced(s, a + b)
    ensures Unique(Ids(a)) && Unplaced(s, a)
    ensures Unique(Ids(b)) && Unplaced(s, b)
    ensures IdSet(b) !! IdSet(a)
  {
    UniqueSplit(a, b);
    assert forall m :: m in a || m in b ==> m in a + b;
  }

  lemma UniqueSplit(a: seq<Student>, b: seq<Student>)
    requires Unique(Ids(a + b))
    ensures Unique(Ids(a)) && Unique(Ids(b)) && IdSet(a) !! IdSet(b)
  {
    var ids := Ids(a + b);
    forall i, j | 0 <= i < j < |a|
      ensures Ids(a)[i] != Ids(a)[j]
    {
      assert ids[i] != ids[j];
    }
    forall i, j | 0 <= i < j < |b|
      ensures Ids(b)[i] != Ids(b)[j]
    {
      assert ids[|a| + i] != ids[|a| + j];
    }
    forall x, y | x in a && y in b
      ensures x.userId != y.userId
    {
      var i :| 0 <= i < |a| && a[i] == x;
      var j :| 0 <= j < |b| && b[j] == y;
      assert ids[i] != ids[|a| + j];
    }
  }

  /** Settling others moves nobody. */
  lemma {:induction false} SettledElsewhere(inp: Inputs, s: State, units: seq<Unit>, id: StudentId)
    requires (forall u :: u in units ==> |u| >= 1) && id !in IdSet(Flat(units)) && id in s.placed
    ensures id in SettleAll(inp, s, units).0.placed && SettleAll(inp, s, units).0.placed[id] == s.placed[id]
  {
    if units != [] {
      LastUnit(units);
      SettledElsewhere(inp, s, units[..|units| - 1], id);
      IdsOfUnit(units[|units| - 1]);
    }
  }

  lemma {:induction false} SettleAllKeeps(inp: Inputs, s: State, units: seq<Unit>)
    requires WellFormed(inp) && Sound(inp, s) && Counted(inp, s) && Ready(inp, s, units)
    ensures var s' := SettleAll(inp, s, units).0;
            && Sound(inp, s') && Counted(inp, s') && Grows(s, s')
            && (Together(inp, s) && (forall u :: u in units ==> PairClosed(inp, IdSet(u))) ==> Together(inp, s'))
            && (KeptTogether(inp, s) && (forall u :: u in units ==> KeptClosed(inp, IdSet(u))) ==> KeptTogether(inp, s'))
            && s'.placed.Keys <= s.placed.Keys + IdSet(Flat(units))
  {
    if units != [] {
      var n := |units| - 1;
      ReadyPrefix(inp, s, units);
      LastUnit(units);
      SettleAllKeeps(inp, s, units[..n]);
      SettleKeeps(inp, SettleAll(inp, s, units[..n]).0, units[n]);
    }
  }

  // ---------- What settling reports ----------

  /** One report per student, in order, each telling where the student sits in s. */
  ghost predicate ReportsState(s: State, students: seq<Student>, rs: seq<Result>) {
    && |rs| == |students|
    && forall i :: 0 <= i < |rs| ==>
         && rs[i].studentId == students[i].userId
         && rs[i].roomId == (if rs[i].studentId in s.placed then Some(s.placed[rs[i].studentId]) else None)
  }

  lemma {:induction false} SettleAllReports(inp: Inputs, s: State, units: seq<Unit>)
    requires WellFormed(inp) && Sound(inp, s) && Counted(inp, s) && Ready(inp, s, units)
    ensures ReportsState(SettleAll(inp, s, units).0, Flat(units), SettleAll(inp, s, units).1)
  {
    if units != [] {
      var n := |units| - 1;
      ReadyPrefix(inp, s, units);
      LastUnit(units);
      var before := SettleAll(inp, s, units[..n]);
      SettleAllReports(inp, s, units[..n]);
      SettleAllKeeps(inp, s, units[..n]);
      assert Unplaced(before.0, units[n]);
      var last := Settle(inp, before.0, units[n]);
      SettleKeeps(inp, before.0, units[n]);
      SettleReports(inp, before.0, units[n]);
      ReportsSurvive(before.0, last.0, Flat(units[..n]), units[n], before.1);
      ReportsConcat(last.0, Flat(units[..n]), units[n], before.1, last.1);
    }
  }

  lemma SettleReports(inp: Inputs, s: State, unit: Unit)
    requires |unit| >= 1 && Unplaced(s, unit)
    ensures ReportsState(Settle(inp, s, unit).0, unit, Settle(inp, s, unit).1)
  {
  }

  /** Reports on students that a later step did not touch stay true. */
  lemma ReportsSurvive(s: State, s': State, students: seq<Student>, others: seq<Student>, rs: seq<Result>)
    requires ReportsState(s, students, rs) && Grows(s, s')
    requires s'.placed.Keys <= s.placed.Keys + IdSet(others) && IdSet(others) !! IdSet(students)
    ensures ReportsState(s', students, rs)
  {
  }

  lemma ReportsConcat(s: State, a: seq<Student>, b: seq<Student>, ra: seq<Result>, rb: seq<Result>)
    requires ReportsState(s, a, ra) && ReportsState(s, b, rb)
    ensures ReportsState(s, a + b, ra + rb)
  {
  }

  // ---------- Settling is maximal ----------

  ghost predicate NoRoomFor(inp: Inputs, s: State, lead: Student, n: nat) {
    forall q :: q in inp.rooms && ValidRoom(inp, lead, q) ==> !Fits(s, q, n)
  }

  lemma NoRoomLater(inp: Inputs, s: State, s': State, lead: Student, n: nat)
    requires NoRoomFor(inp, s, lead, n) && Grows(s, s')
    ensures NoRoomFor(inp, s', lead, n)
  {
  }

  /** The members of a unit share one fate: all of them end in a room, or none does. */
  lemma {:induction false} SettleAllFate(inp: Inputs, s: State, units: seq<Unit>, u: Unit)
    requires WellFormed(inp) && Sound(inp, s) && Counted(inp, s) && Ready(inp, s, units) && u in units
    ensures IdSet(u) <= SettleAll(inp, s, units).0.placed.Keys || IdSet(u) !! SettleAll(inp, s, units).0.placed.Keys
  {
    var n := |units| - 1;
    ReadyPrefix(inp, s, units);
    LastUnit(units);
    var before := SettleAll(inp, s, units[..n]).0;
    SettleAllKeeps(inp, s, units[..n]);
    SettleFate(inp, before, units[n]);
    if u != units[n] {
      SettleAllFate(inp, s, units[..n], u);
      UnitInFlat(units[..n], u);
    }
  }

  lemma SettleFate(inp: Inputs, s: State, unit: Unit)
    requires |unit| >= 1 && Unplaced(s, unit)
    ensures Settle(inp, s, unit).0.placed.Keys in {s.placed.Keys, s.placed.Keys + IdSet(unit)}
    ensures IdSet(unit) !! s.placed.Keys
  {
    IdsOfUnit(unit);
  }

  /** When all units are settled, none that was left out has a valid room with enough free beds. */
  lemma {:induction false} SettleAllMaximal(inp: Inputs, s: State, units: seq<Unit>, u: Unit)
    requires WellFormed(inp) && Sound(inp, s) && Counted(inp, s) && Ready(inp, s, units)
    requires u in units && u[0].userId !in SettleAll(inp, s, units).0.placed
    ensures NoRoomFor(inp, SettleAll(inp, s, units).0, u[0], |u|)
  {
    var n := |units| - 1;
    ReadyPrefix(inp, s, units);
    LastUnit(units);
    var before := SettleAll(inp, s, units[..n]).0;
    SettleAllKeeps(inp, s, units[..n]);
    SettleKeeps(inp, before, units[n]);
    if u == units[n] {
      RefusedHasNoRoom(inp, before, u);
    } else {
      SettleAllMaximal(inp, s, units[..n], u);
      NoRoomLater(inp, before, SettleAll(inp, s, units).0, u[0], |u|);
    }
  }

  lemma RefusedHasNoRoom(inp: Inputs, s: State, u: Unit)
    requires |u| >= 1 && u[0].userId !in Settle(inp, s, u).0.placed
    ensures NoRoomFor(inp, Settle(inp, s, u).0, u[0], |u|)
  {
    BestRoomIsBest(inp, s, u[0], |u|);
    IdsOfUnit(u);
    assert u[0] in u;
  }
}
